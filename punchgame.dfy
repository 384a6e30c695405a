/** The game's objects, `Player`, `Enemy` and `Game`, with the fields the
    game updates in place. Each method that changes state is proved to
    take the object from its old state to the one the rules in
    EnemyRules, PlayerRules and GameRules prescribe. */
module PunchGame {
  import opened Settings
  import opened EnemyRules
  import opened PlayerRules
  import opened GameRules

  class Enemy {
    const id: nat
    var x: int
    var y: int
    var health: int
    var attackCooldown: int
    var alive: bool

    function State(): Foe
      reads this
    {
      Foe(id, x, y, health, attackCooldown, alive)
    }

    constructor (id: nat, x: int, y: int)
      ensures State() == Spawned(id, x, y)
    {
      this.id := id;
      this.x := x;
      this.y := y;
      health := ENEMY_MAX_HEALTH;
      attackCooldown := 0;
      alive := true;
    }

    /** `take_damage`. */
    method TakeDamage(damage: int)
      modifies this
      ensures State() == Damaged(old(State()), damage)
    {
      health := health - damage;
      if health <= 0 {
        alive := false;
      }
    }

    /** `Enemy.update`, its attack part: `inRange` says whether the player is
        within reach. It changes the player's health and nothing else of the
        player. */
    method Update(player: Player, inRange: bool)
      modifies this, player`health
      ensures (State(), player.health) == EnemyTick(old(State()), old(player.health), inRange)
    {
      if !alive {
        return;
      }
      if inRange && attackCooldown <= 0 {
        player.health := player.health - ENEMY_ATTACK_DAMAGE;
        attackCooldown := ENEMY_ATTACK_COOLDOWN;
      }
      if attackCooldown > 0 {
        attackCooldown := attackCooldown - 1;
      }
    }
  }

  /** The states of a list of enemies. */
  function States(enemies: seq<Enemy>): (r: seq<Foe>)
    reads enemies
    ensures |r| == |enemies| && forall i :: 0 <= i < |enemies| ==> r[i] == enemies[i].State()
  {
    seq(|enemies|, i reads enemies requires 0 <= i < |enemies| => enemies[i].State())
  }

  /** No two entries of the list share an id (so none is listed twice). */
  predicate DistinctEnemies(enemies: seq<Enemy>) {
    forall i, j {:trigger Apart(enemies, i, j)} :: 0 <= i < j < |enemies| ==> Apart(enemies, i, j)
  }

  /** Entries `i` and `j` of the list carry different ids. */
  predicate Apart(enemies: seq<Enemy>, i: int, j: int)
    requires 0 <= i < |enemies| && 0 <= j < |enemies|
  {
    enemies[i].id != enemies[j].id
  }

  /** Distinct ids in the states make distinct entries in the list. */
  lemma DistinctFromStates(enemies: seq<Enemy>)
    requires DistinctIds(States(enemies))
    ensures DistinctEnemies(enemies)
  {
    var foes := States(enemies);
    forall i, j | 0 <= i < j < |enemies| ensures Apart(enemies, i, j) {
      assert IdsDiffer(foes, i, j);
    }
  }

  /** Python's `list.remove`: drops the first entry equal to `e`, which must
      be present. */
  function Remove(s: seq<Enemy>, e: Enemy): (r: seq<Enemy>)
    requires e in s
    ensures |r| == |s| - 1
    decreases |s|
  {
    if s[0] == e then s[1..] else [s[0]] + Remove(s[1..], e)
  }

  lemma {:induction false} RemoveFirstOccurrence(front: seq<Enemy>, e: Enemy, back: seq<Enemy>)
    requires e !in front
    ensures Remove(front + [e] + back, e) == front + back
    decreases |front|
  {
    if front != [] {
      assert (front + [e] + back)[1..] == front[1..] + [e] + back;
      RemoveFirstOccurrence(front[1..], e, back);
    }
  }

  /** In a list without repeated ids, an entry is not among those before
      it, nor in any list drawn from those. */
  lemma NotEarlier(s: seq<Enemy>, i: nat, earlier: seq<Enemy>)
    requires DistinctEnemies(s) && i < |s|
    requires forall e :: e in earlier ==> e in s[..i]
    ensures s[i] !in earlier
  {
    forall k | 0 <= k < i ensures s[k] != s[i] {
      assert Apart(s, k, i);
    }
  }

  /** In a list without repeated ids, no other entry is entry `i` or
      shares its id. */
  lemma NotLater(s: seq<Enemy>, i: nat)
    requires DistinctEnemies(s) && i < |s|
    ensures forall j :: 0 <= j < |s| && j != i ==> s[j] != s[i]
    ensures forall j :: 0 <= j < |s| && j != i ==> s[j].id != s[i].id
  {
    forall j | 0 <= j < |s| && j != i ensures s[j].id != s[i].id {
      if j < i { assert Apart(s, j, i); } else { assert Apart(s, i, j); }
    }
  }

  /** The pass over one more enemy. */
  lemma PassStep(foes: seq<Foe>, i: nat, h: int, inRange: set<nat>)
    requires i < |foes|
    ensures EnemyPass(foes[..i + 1], h, inRange) == Advance(EnemyPass(foes[..i], h, inRange), foes[i], inRange)
  {
    assert foes[..i + 1][..i] == foes[..i];
  }

  /** The enemies of `s` among its first `n` whose state in `foes` is alive. */
  function KeptOf(s: seq<Enemy>, foes: seq<Foe>, n: nat): seq<Enemy>
    requires n <= |s| == |foes|
  {
    if n == 0 then []
    else KeptOf(s, foes, n - 1) + if foes[n - 1].alive then [s[n - 1]] else []
  }

  /** The list during the loop of `Game.update`: the entries already visited
      that are still alive, then those not yet visited. */
  function Pending(s: seq<Enemy>, foes: seq<Foe>, n: nat): seq<Enemy>
    requires n <= |s| == |foes|
  {
    KeptOf(s, foes, n) + s[n..]
  }

  /** Removing a dead enemy `i` from the list as it stands before its turn
      leaves the list as it stands after. */
  lemma RemoveNext(s: seq<Enemy>, foes: seq<Foe>, i: nat)
    requires DistinctEnemies(s) && i < |s| == |foes| && !foes[i].alive
    ensures s[i] in Pending(s, foes, i)
    ensures Remove(Pending(s, foes, i), s[i]) == Pending(s, foes, i + 1)
  {
    KeptFromPrefix(s, foes, i);
    NotEarlier(s, i, KeptOf(s, foes, i));
    var kept := KeptOf(s, foes, i);
    assert kept + s[i..] == kept + [s[i]] + s[i + 1..];
    RemoveFirstOccurrence(kept, s[i], s[i + 1..]);
    assert KeptOf(s, foes, i + 1) == kept + [];
  }

  /** A live enemy `i` stays where it is. */
  lemma KeepNext(s: seq<Enemy>, foes: seq<Foe>, i: nat)
    requires i < |s| == |foes| && foes[i].alive
    ensures s[i] in Pending(s, foes, i)
    ensures Pending(s, foes, i) == Pending(s, foes, i + 1)
  {
    assert s[i..] == [s[i]] + s[i + 1..];
  }

  /** The kept entries all come from the visited part of the list. */
  lemma {:induction false} KeptFromPrefix(s: seq<Enemy>, foes: seq<Foe>, n: nat)
    requires n <= |s| == |foes|
    ensures forall e :: e in KeptOf(s, foes, n) ==> e in s[..n]
    decreases n
  {
    if n > 0 {
      KeptFromPrefix(s, foes, n - 1);
    }
  }

  /** Once every enemy has been visited, the list holds exactly the
      survivors of the pass, in their updated states. */
  lemma KeptStates(s: seq<Enemy>, foes: seq<Foe>, remaining: seq<Enemy>, h: int, inRange: set<nat>)
    requires |s| == |foes| && remaining == Pending(s, foes, |s|)
    requires forall j :: 0 <= j < |s| ==> s[j].State() == Ticked(foes[j], foes[j].id in inRange)
    ensures States(remaining) == EnemyPass(foes, h, inRange).survivors
  {
    KeptStatesUpTo(s, foes, |s|, h, inRange);
    assert foes[..|s|] == foes;
    assert remaining == KeptOf(s, foes, |s|);
  }

  /** The same for the first `n` enemies. */
  lemma {:induction false} KeptStatesUpTo(s: seq<Enemy>, foes: seq<Foe>, n: nat, h: int, inRange: set<nat>)
    requires n <= |s| == |foes|
    requires forall j :: 0 <= j < |s| ==> s[j].State() == Ticked(foes[j], foes[j].id in inRange)
    ensures States(KeptOf(s, foes, n)) == EnemyPass(foes[..n], h, inRange).survivors
    decreases n
  {
    if n > 0 {
      KeptStatesUpTo(s, foes, n - 1, h, inRange);
      assert foes[..n][..n - 1] == foes[..n - 1];
    }
  }

  class Player {
    var x: int
    var y: int
    var health: int
    var punchCooldown: int
    var isPunching: bool
    var punchTimer: int
    var punchExtension: int
    var hitEnemies: set<nat>

    function State(): PlayerState
      reads this
    {
      PlayerState(x, y, health, punchCooldown, punchTimer, isPunching, punchExtension, hitEnemies)
    }

    constructor (x: int, y: int)
      ensures State() == NewPlayer(x, y)
    {
      this.x := x;
      this.y := y;
      health := PLAYER_MAX_HEALTH;
      punchCooldown := 0;
      isPunching := false;
      punchTimer := 0;
      punchExtension := 0;
      hitEnemies := {};
    }

    /** `Player.update`: `keys` are the direction keys held, `touching` the
        ids of the enemies the fist touches this tick. */
    method Update(keys: Keys, enemies: seq<Enemy>, touching: set<nat>)
      requires DistinctEnemies(enemies)
      modifies this, enemies
      ensures (State(), States(enemies)) == PlayerTick(old(State()), keys, old(States(enemies)), touching)
    {
      ghost var start := State();
      ghost var foes := States(enemies);
      Move(keys);
      assert States(enemies) == foes;

      if punchCooldown > 0 {
        punchCooldown := punchCooldown - 1;
      }

      if punchTimer > 0 {
        punchTimer := punchTimer - 1;
        isPunching := true;
        punchExtension := (PUNCH_DURATION - punchTimer) * FIST_STEP;
        ghost var animated := State();
        assert PlayerTick(start, keys, foes, touching) == CheckHits(animated, foes, touching);
        assert States(enemies) == foes;
        CheckPunchHits(enemies, touching);
        assert (State(), States(enemies)) == PlayerTick(start, keys, foes, touching);
      } else {
        isPunching := false;
        punchExtension := 0;
        if punchTimer == 0 && !isPunching {
          hitEnemies := {};
        }
        assert PlayerTick(start, keys, foes, touching) == (State(), foes);
        assert States(enemies) == foes;
      }
    }

    /** The movement part of `Player.update`: each held key moves the player
        one step, then the position is clamped to the screen. */
    method Move(keys: Keys)
      modifies this`x, this`y
      ensures State() == Moved(old(State()), keys)
    {
      if keys.left {
        x := x - PLAYER_SPEED;
      }
      if keys.right {
        x := x + PLAYER_SPEED;
      }
      if keys.up {
        y := y - PLAYER_SPEED;
      }
      if keys.down {
        y := y + PLAYER_SPEED;
      }
      x := Max(0, Min(SCREEN_WIDTH - PLAYER_WIDTH, x));
      y := Max(0, Min(SCREEN_HEIGHT - PLAYER_HEIGHT, y));
    }

    /** A step that changed only the player's health. */
    twostate lemma HealthOnly()
      requires unchanged(`x, `y, `punchCooldown, `isPunching, `punchTimer, `punchExtension, `hitEnemies)
      ensures State() == old(State()).(health := health)
    {
    }

    /** `Player.punch`. */
    method Punch()
      modifies this
      ensures State() == Punched(old(State()))
    {
      if punchCooldown <= 0 {
        punchCooldown := PUNCH_COOLDOWN;
        punchTimer := PUNCH_DURATION;
        isPunching := true;
        hitEnemies := {};
      }
    }

    /** `Player.check_punch_hits`: one pass over the enemies in list order. */
    method CheckPunchHits(enemies: seq<Enemy>, touching: set<nat>)
      requires DistinctEnemies(enemies)
      modifies this`hitEnemies, enemies
      ensures (State(), States(enemies)) == CheckHits(old(State()), old(States(enemies)), touching)
    {
      if !isPunching {
        return;
      }
      ghost var foes := States(enemies);
      ghost var hits := hitEnemies;
      var i := 0;
      while i < |enemies|
        invariant 0 <= i <= |enemies|
        invariant hitEnemies == hits + StruckIds(foes[..i], hits, touching)
        invariant forall j :: 0 <= j < i ==> enemies[j].State() == Strike(foes[j], hits, touching)
        invariant forall j :: i <= j < |enemies| ==> enemies[j].State() == foes[j]
      {
        var enemy := enemies[i];
        NotLater(enemies, i);
        StruckIdsSnoc(foes, i, hits, touching);
        assert enemy.id !in StruckIds(foes[..i], hits, touching);
        if enemy.alive && enemy.id !in hitEnemies {
          if enemy.id in touching {
            enemy.TakeDamage(PUNCH_DAMAGE);
            hitEnemies := hitEnemies + {enemy.id};
          }
        }
        i := i + 1;
      }
      assert foes[..i] == foes;
      assert States(enemies) == Strikes(foes, hits, touching);
    }
  }

  class Game {
    var running: bool
    const player: Player
    var enemies: seq<Enemy>
    var spawnTimer: int
    var score: int
    var nextId: nat

    function Snapshot(): World
      reads this, player, enemies
    {
      World(player.State(), States(enemies), spawnTimer, score, running, nextId)
    }

    ghost predicate Valid()
      reads this, player, enemies
    {
      Invariant(Snapshot())
    }

    constructor ()
      ensures Valid() && Snapshot() == NewWorld()
    {
      running := true;
      player := new Player(SCREEN_WIDTH / 2, SCREEN_HEIGHT / 2);
      enemies := [];
      spawnTimer := 0;
      score := 0;
      nextId := 0;
    }

    /** `spawn_enemy`: `spawn` holds the side and the coordinate drawn at
        random. The new enemy gets the next id and goes at the end of the
        list. */
    method SpawnEnemy(spawn: Spawn)
      requires ValidSpawn(spawn)
      modifies this
      ensures |enemies| == |old(enemies)| + 1 && enemies[..|old(enemies)|] == old(enemies)
      ensures fresh(enemies[|old(enemies)|])
      ensures States(enemies) ==
        old(States(enemies)) + [Spawned(old(nextId), SpawnPosition(spawn).0, SpawnPosition(spawn).1)]
      ensures nextId == old(nextId) + 1
      ensures running == old(running) && spawnTimer == old(spawnTimer) && score == old(score)
    {
      var (x, y) := SpawnPosition(spawn);
      var enemy := new Enemy(nextId, x, y);
      nextId := nextId + 1;
      ghost var before := States(enemies);
      enemies := enemies + [enemy];
      assert States(enemies) == before + [enemy.State()];
    }

    /** `Game.update`. `keys` are the direction keys held, `touching` the ids
        of the enemies the fist touches, `inRange` the ids of the enemies
        within reach of the player, and `spawn` the random draws a spawn
        would use this tick. */
    method Update(keys: Keys, touching: set<nat>, inRange: set<nat>, spawn: Spawn)
      requires Valid() && ValidSpawn(spawn)
      modifies this, player, enemies
      ensures Snapshot() == GameStep(old(Snapshot()), keys, touching, inRange, spawn)
      ensures Valid()
    {
      ghost var start := Snapshot();
      DistinctFromStates(enemies);
      PlayerTurn(keys, touching);
      UpdateEnemies(inRange);
      SpawnTick(spawn);
      GameOver();
      StepKeepsInvariant(start, keys, touching, inRange, spawn);
    }

    /** The player's part of `Game.update`: `Player.update` on the list. */
    method PlayerTurn(keys: Keys, touching: set<nat>)
      requires DistinctEnemies(enemies)
      modifies player, enemies
      ensures Snapshot() == PlayerStage(old(Snapshot()), keys, touching)
    {
      player.Update(keys, enemies, touching);
    }

    /** The end of `Game.update`: the run stops once the player's health is
        zero or below. */
    method GameOver()
      modifies this`running
      ensures Snapshot() == OverStage(old(Snapshot()))
    {
      if player.health <= 0 {
        running := false;
      }
    }

    /** The spawning part of `Game.update`: the timer counts one tick and,
        on reaching SPAWN_INTERVAL, an enemy spawns and the timer restarts. */
    method SpawnTick(spawn: Spawn)
      requires ValidSpawn(spawn)
      modifies this
      ensures Snapshot() == SpawnStage(old(Snapshot()), spawn)
    {
      spawnTimer := spawnTimer + 1;
      if spawnTimer >= SPAWN_INTERVAL {
        SpawnEnemy(spawn);
        spawnTimer := 0;
      }
    }

    /** The loop of `Game.update` over the enemies: each one updates (and may
        strike the player); one that is no longer alive is removed from the
        list and scores KILL_SCORE. The loop walks a copy of the list, as the
        source iterates over `self.enemies[:]`. */
    method UpdateEnemies(inRange: set<nat>)
      requires DistinctEnemies(enemies)
      modifies this`enemies, this`score, player`health, enemies
      ensures Snapshot() == EnemyStage(old(Snapshot()), inRange)
    {
      ghost var start := Snapshot();
      var remaining := VisitAll(enemies, start.foes, inRange);
      enemies := remaining;
    }

    /** The loop itself, over a copy of the list, and what it amounts to:
        the player's health and the score as the enemies' pass says, and the
        list left with exactly the pass's survivors. */
    method VisitAll(snapshot: seq<Enemy>, ghost punched: seq<Foe>, inRange: set<nat>) returns (remaining: seq<Enemy>)
      requires DistinctEnemies(snapshot) && |snapshot| == |punched|
      requires forall j :: 0 <= j < |snapshot| ==> snapshot[j].State() == punched[j]
      modifies this`score, player`health, snapshot
      ensures player.State() == old(player.State()).(health := EnemyPass(punched, old(player.health), inRange).playerHealth)
      ensures score == old(score) + KILL_SCORE * EnemyPass(punched, old(player.health), inRange).removed
      ensures States(remaining) == EnemyPass(punched, old(player.health), inRange).survivors
    {
      ghost var h := player.health;
      remaining := Loop(snapshot, punched, inRange);
      player.HealthOnly();
      KeptStates(snapshot, punched, remaining, h, inRange);
    }

    /** The loop: `remaining` starts as the list and loses each enemy found
        dead. */
    method Loop(snapshot: seq<Enemy>, ghost punched: seq<Foe>, inRange: set<nat>) returns (remaining: seq<Enemy>)
      requires DistinctEnemies(snapshot) && |snapshot| == |punched|
      requires forall j :: 0 <= j < |snapshot| ==> snapshot[j].State() == punched[j]
      modifies this`score, player`health, snapshot
      ensures player.health == EnemyPass(punched, old(player.health), inRange).playerHealth
      ensures score == old(score) + KILL_SCORE * EnemyPass(punched, old(player.health), inRange).removed
      ensures remaining == Pending(snapshot, punched, |snapshot|)
      ensures forall j :: 0 <= j < |snapshot| ==> snapshot[j].State() == Ticked(punched[j], punched[j].id in inRange)
    {
      ghost var h := player.health;
      ghost var points := score;
      remaining := snapshot;
      var i := 0;
      while i < |snapshot|
        invariant 0 <= i <= |snapshot|
        invariant player.health == EnemyPass(punched[..i], h, inRange).playerHealth
        invariant score == points + KILL_SCORE * EnemyPass(punched[..i], h, inRange).removed
        invariant remaining == Pending(snapshot, punched, i)
        invariant forall j {:trigger snapshot[j].State()} :: 0 <= j < |snapshot| ==>
          snapshot[j].State() == if j < i then Ticked(punched[j], punched[j].id in inRange) else punched[j]
      {
        NotLater(snapshot, i);
        remaining := Visit(snapshot, punched, i, h, points, inRange, remaining);
        i := i + 1;
      }
      assert punched[..i] == punched;
    }

    /** One turn of that loop: enemy `i` updates, and if it is no longer
        alive it leaves the list and scores KILL_SCORE. */
    method Visit(snapshot: seq<Enemy>, ghost punched: seq<Foe>, i: nat, ghost h: int, ghost points: int, inRange: set<nat>, remaining: seq<Enemy>)
      returns (rest: seq<Enemy>)
      requires DistinctEnemies(snapshot) && i < |snapshot| == |punched|
      requires snapshot[i].State() == punched[i]
      requires player.health == EnemyPass(punched[..i], h, inRange).playerHealth
      requires score == points + KILL_SCORE * EnemyPass(punched[..i], h, inRange).removed
      requires remaining == Pending(snapshot, punched, i)
      modifies this`score, player`health, snapshot[i]
      ensures snapshot[i].State() == Ticked(punched[i], punched[i].id in inRange)
      ensures player.health == EnemyPass(punched[..i + 1], h, inRange).playerHealth
      ensures score == points + KILL_SCORE * EnemyPass(punched[..i + 1], h, inRange).removed
      ensures rest == Pending(snapshot, punched, i + 1)
    {
      var enemy := snapshot[i];
      PassStep(punched, i, h, inRange);
      enemy.Update(player, enemy.id in inRange);
      rest := remaining;
      if !enemy.alive {
        RemoveNext(snapshot, punched, i);
        rest := Remove(rest, enemy);
        score := score + KILL_SCORE;
      } else {
        KeepNext(snapshot, punched, i);
      }
    }

    /** `handle_events`: a quit event stops the loop, a space press asks the
        player to punch. */
    method HandleEvents(events: Events)
      modifies this`running, player
      ensures Snapshot() == Handled(old(Snapshot()), events)
    {
      if events.quit {
        running := false;
      }
      if events.punch {
        player.Punch();
      }
    }

    /** One frame of `Game.run`: the events, then the update. */
    method Tick(events: Events, keys: Keys, touching: set<nat>, inRange: set<nat>, spawn: Spawn)
      requires Valid() && ValidSpawn(spawn)
      modifies this, player, enemies
      ensures Valid()
      ensures Snapshot() == GameFrame(old(Snapshot()), events, keys, touching, inRange, spawn)
    {
      ghost var start := Snapshot();
      HandleEvents(events);
      HandledKeepsInvariant(start, events);
      Update(keys, touching, inRange, spawn);
    }
  }
}
