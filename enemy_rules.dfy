/** What happens to one enemy: the damage it takes from the player's
    punches, and its own attack on the player, gated by a cooldown. */
module EnemyRules {
  import opened Settings

  /** The fields of an enemy that change during play. `id` is the stable
      identity the player's hit set records. The position is where the enemy
      spawned: steering toward the player is not part of this model. */
  datatype Foe = Foe(id: nat, x: int, y: int, health: int, attackCooldown: int, alive: bool)

  /** A freshly created enemy at (x, y). */
  function Spawned(id: nat, x: int, y: int): Foe {
    Foe(id, x, y, ENEMY_MAX_HEALTH, 0, true)
  }

  /** `take_damage`: health drops by exactly `damage`, an enemy whose health
      reaches zero or below stops being alive, and nothing else changes. */
  function Damaged(e: Foe, damage: int): (r: Foe)
    ensures r.health == e.health - damage
    ensures r.alive <==> e.alive && r.health > 0
    ensures r.(health := e.health, alive := e.alive) == e
  {
    var hurt := e.(health := e.health - damage);
    if hurt.health <= 0 then hurt.(alive := false) else hurt
  }

  /** The enemy after taking the given hits, in order. */
  function AfterHits(e: Foe, damages: seq<int>): Foe
    decreases |damages|
  {
    if damages == [] then e else AfterHits(Damaged(e, damages[0]), damages[1..])
  }

  function Sum(s: seq<int>): int
    decreases |s|
  {
    if s == [] then 0 else s[0] + Sum(s[1..])
  }

  /** `n` copies of `d`. */
  function Repeat(d: int, n: nat): (r: seq<int>)
    ensures |r| == n && forall i :: 0 <= i < n ==> r[i] == d
  {
    seq(n, _ => d)
  }

  /** Once an enemy is dead, no further damage, of any sign, revives it. */
  lemma {:induction false} DeadStaysDead(e: Foe, damages: seq<int>)
    requires !e.alive
    ensures !AfterHits(e, damages).alive
    decreases |damages|
  {
    if damages != [] {
      DeadStaysDead(Damaged(e, damages[0]), damages[1..]);
    }
  }

  lemma {:induction false} SumOfNonNegatives(s: seq<int>)
    requires forall i :: 0 <= i < |s| ==> s[i] >= 0
    ensures Sum(s) >= 0
    decreases |s|
  {
    if s != [] {
      SumOfNonNegatives(s[1..]);
    }
  }

  /** Hits add up: after any run of non-negative hits the enemy has lost
      exactly their sum, and it is alive exactly when it was alive before
      and its remaining health is positive. */
  lemma {:induction false} HitsAccumulate(e: Foe, damages: seq<int>)
    requires e.alive ==> e.health > 0
    requires forall i :: 0 <= i < |damages| ==> damages[i] >= 0
    ensures AfterHits(e, damages).health == e.health - Sum(damages)
    ensures AfterHits(e, damages).alive <==> e.alive && e.health - Sum(damages) > 0
    ensures AfterHits(e, damages).(health := e.health, alive := e.alive) == e
    decreases |damages|
  {
    if damages != [] {
      var rest := damages[1..];
      assert forall i :: 0 <= i < |rest| ==> rest[i] == damages[i + 1];
      HitsAccumulate(Damaged(e, damages[0]), rest);
      SumOfNonNegatives(rest);
    }
  }

  lemma {:induction false} SumOfRepeat(d: int, n: nat)
    ensures Sum(Repeat(d, n)) == d * n
    decreases n
  {
    if n > 0 {
      assert Repeat(d, n)[1..] == Repeat(d, n - 1);
      SumOfRepeat(d, n - 1);
    }
  }

  /** A live enemy survives `k` punches exactly when its health exceeds
      `k` punches' worth of damage. */
  lemma HitsToKill(e: Foe, k: nat)
    requires e.alive && e.health > 0
    ensures AfterHits(e, Repeat(PUNCH_DAMAGE, k)).alive <==> e.health > PUNCH_DAMAGE * k
    ensures AfterHits(e, Repeat(PUNCH_DAMAGE, k)).health == e.health - PUNCH_DAMAGE * k
  {
    HitsAccumulate(e, Repeat(PUNCH_DAMAGE, k));
    SumOfRepeat(PUNCH_DAMAGE, k);
  }

  /** A fresh enemy (50 health) survives its first punch and dies on its
      second. */
  lemma FreshEnemyDiesOnSecondPunch(id: nat, x: int, y: int)
    ensures AfterHits(Spawned(id, x, y), Repeat(PUNCH_DAMAGE, 1)).alive
    ensures !AfterHits(Spawned(id, x, y), Repeat(PUNCH_DAMAGE, 2)).alive
  {
    HitsToKill(Spawned(id, x, y), 1);
    HitsToKill(Spawned(id, x, y), 2);
  }

  /** Whether the enemy strikes the player this tick. */
  predicate Attacks(e: Foe, inRange: bool) {
    e.alive && inRange && e.attackCooldown <= 0
  }

  /** The enemy after the attack part of `Enemy.update`: a dead enemy is
      left alone; a live one in reach whose cooldown has run out attacks and
      restarts its cooldown; then a running cooldown counts down by one.
      Nothing but the cooldown changes. */
  function Ticked(e: Foe, inRange: bool): (r: Foe)
    ensures r == e.(attackCooldown := r.attackCooldown)
    ensures Attacks(e, inRange) ==> r.attackCooldown == ENEMY_ATTACK_COOLDOWN - 1
    ensures e.alive && !Attacks(e, inRange) && e.attackCooldown > 0 ==> r.attackCooldown == e.attackCooldown - 1
    ensures e.alive && !Attacks(e, inRange) && e.attackCooldown <= 0 ==> r == e
    ensures !e.alive ==> r == e
    ensures 0 <= e.attackCooldown < ENEMY_ATTACK_COOLDOWN ==> 0 <= r.attackCooldown < ENEMY_ATTACK_COOLDOWN
  {
    if !e.alive then e
    else
      var cooldown := if inRange && e.attackCooldown <= 0 then ENEMY_ATTACK_COOLDOWN else e.attackCooldown;
      e.(attackCooldown := if cooldown > 0 then cooldown - 1 else cooldown)
  }

  /** `Enemy.update`, its attack part: the enemy after its update, and the
      player's health, which drops by ENEMY_ATTACK_DAMAGE exactly when the
      enemy attacks. */
  function EnemyTick(e: Foe, playerHealth: int, inRange: bool): (r: (Foe, int))
    ensures Attacks(e, inRange) ==>
      r.1 == playerHealth - ENEMY_ATTACK_DAMAGE && r.0.attackCooldown == ENEMY_ATTACK_COOLDOWN - 1
    ensures !Attacks(e, inRange) ==> r.1 == playerHealth
    ensures e.alive && !Attacks(e, inRange) && e.attackCooldown > 0 ==> r.0.attackCooldown == e.attackCooldown - 1
    ensures !e.alive || (!Attacks(e, inRange) && e.attackCooldown <= 0) ==> r.0 == e
    ensures r.0 == e.(attackCooldown := r.0.attackCooldown)
  {
    (Ticked(e, inRange), if Attacks(e, inRange) then playerHealth - ENEMY_ATTACK_DAMAGE else playerHealth)
  }

  /** The enemy and the player's health after consecutive ticks; `reach[k]`
      says whether the player is within reach on tick `k`. */
  function EnemyTicks(e: Foe, playerHealth: int, reach: seq<bool>): (Foe, int)
    decreases |reach|
  {
    if reach == [] then (e, playerHealth)
    else
      var (e', h') := EnemyTick(e, playerHealth, reach[0]);
      EnemyTicks(e', h', reach[1..])
  }

  /** While its cooldown lasts, an enemy cannot hurt the player, wherever the
      player stands, and the cooldown runs down one per tick. */
  lemma {:induction false} NoAttackWhileCoolingDown(e: Foe, playerHealth: int, reach: seq<bool>)
    requires e.attackCooldown >= |reach|
    ensures EnemyTicks(e, playerHealth, reach).1 == playerHealth
    ensures e.alive ==> EnemyTicks(e, playerHealth, reach).0.attackCooldown == e.attackCooldown - |reach|
    decreases |reach|
  {
    if reach != [] {
      var (e', h') := EnemyTick(e, playerHealth, reach[0]);
      NoAttackWhileCoolingDown(e', h', reach[1..]);
    }
  }

  /** After an attack the enemy leaves the player alone for the next 59
      ticks: two attacks by one enemy are at least 60 ticks apart. On the
      60th tick its cooldown is spent again. */
  lemma AttacksSixtyTicksApart(e: Foe, playerHealth: int, reach: seq<bool>)
    requires Attacks(e, true)
    requires |reach| < ENEMY_ATTACK_COOLDOWN
    ensures var (e', h') := EnemyTick(e, playerHealth, true);
      h' == playerHealth - ENEMY_ATTACK_DAMAGE &&
      EnemyTicks(e', h', reach).1 == h' &&
      EnemyTicks(e', h', reach).0.attackCooldown == ENEMY_ATTACK_COOLDOWN - 1 - |reach|
  {
    var (e', h') := EnemyTick(e, playerHealth, true);
    NoAttackWhileCoolingDown(e', h', reach);
  }
}
