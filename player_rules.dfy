/** What happens to the player on each tick: movement clamped to the
    screen, the punch cooldown, the fist animation and the punch's hits on
    enemies, recorded in a per-punch hit set. */
module PlayerRules {
  import opened Settings
  import opened EnemyRules

  /** The direction keys held this tick (arrow key or WASD). */
  datatype Keys = Keys(left: bool, right: bool, up: bool, down: bool)

  /** The fields of the player that change during play. The punch angle is
      left out with the rest of the fist geometry; `hitEnemies` holds the ids
      of the enemies the current punch has struck. */
  datatype PlayerState = PlayerState(
    x: int, y: int, health: int,
    punchCooldown: int, punchTimer: int, isPunching: bool, punchExtension: int,
    hitEnemies: set<nat>)

  /** A new player at (x, y). */
  function NewPlayer(x: int, y: int): PlayerState {
    PlayerState(x, y, PLAYER_MAX_HEALTH, 0, 0, false, 0, {})
  }

  const MAX_X: int := SCREEN_WIDTH - PLAYER_WIDTH
  const MAX_Y: int := SCREEN_HEIGHT - PLAYER_HEIGHT

  predicate OnScreen(p: PlayerState) {
    0 <= p.x <= MAX_X && 0 <= p.y <= MAX_Y
  }

  function Dist(a: int, b: int): nat {
    if a < b then b - a else a - b
  }

  function Max(a: int, b: int): int {
    if a < b then b else a
  }

  function Min(a: int, b: int): int {
    if a < b then a else b
  }

  /** `max(0, min(hi, v))`: the point of [0, hi] nearest to v. */
  function Clamp(v: int, hi: int): (r: int)
    requires 0 <= hi
    ensures 0 <= r <= hi
    ensures forall w :: 0 <= w <= hi ==> Dist(r, v) <= Dist(w, v)
  {
    Max(0, Min(hi, v))
  }

  /** One axis of a move: back by a step if `minus` is held, then forward by
      a step if `plus` is held. */
  function Step(v: int, minus: bool, plus: bool): int {
    var back := if minus then v - PLAYER_SPEED else v;
    if plus then back + PLAYER_SPEED else back
  }

  function Sign(b: bool): int {
    if b then 1 else 0
  }

  /** The movement part of `Player.update`. Whatever keys are held the player
      ends on screen; from on screen it moves at most one step per axis, and
      away from the edges it moves a full step along each axis whose keys
      disagree (so a diagonal is not slowed down). */
  function Moved(p: PlayerState, keys: Keys): (r: PlayerState)
    ensures OnScreen(r)
    ensures r == p.(x := r.x, y := r.y)
    ensures OnScreen(p) ==> Dist(r.x, p.x) <= PLAYER_SPEED && Dist(r.y, p.y) <= PLAYER_SPEED
    ensures PLAYER_SPEED <= p.x <= MAX_X - PLAYER_SPEED ==>
      r.x == p.x + PLAYER_SPEED * (Sign(keys.right) - Sign(keys.left))
    ensures PLAYER_SPEED <= p.y <= MAX_Y - PLAYER_SPEED ==>
      r.y == p.y + PLAYER_SPEED * (Sign(keys.down) - Sign(keys.up))
    ensures var sx := Step(p.x, keys.left, keys.right);
      (sx < 0 ==> r.x == 0) && (sx > MAX_X ==> r.x == MAX_X) && (0 <= sx <= MAX_X ==> r.x == sx)
    ensures var sy := Step(p.y, keys.up, keys.down);
      (sy < 0 ==> r.y == 0) && (sy > MAX_Y ==> r.y == MAX_Y) && (0 <= sy <= MAX_Y ==> r.y == sy)
  {
    p.(x := Clamp(Step(p.x, keys.left, keys.right), MAX_X),
       y := Clamp(Step(p.y, keys.up, keys.down), MAX_Y))
  }

  /** The invariant the punch fields keep between operations: the timer and
      cooldown stay in range; while punching, the cooldown is the timer plus
      the ten ticks that follow the animation, and the fist is out
      FIST_STEP per elapsed animation tick; when not punching, the timer is
      spent, the fist is in and the hit set is empty. */
  predicate PunchConsistent(p: PlayerState) {
    0 <= p.punchTimer <= PUNCH_DURATION &&
    0 <= p.punchCooldown <= PUNCH_COOLDOWN &&
    (p.isPunching ==>
      p.punchCooldown == p.punchTimer + (PUNCH_COOLDOWN - PUNCH_DURATION) &&
      p.punchExtension == (PUNCH_DURATION - p.punchTimer) * FIST_STEP) &&
    (!p.isPunching ==> p.punchTimer == 0 && p.punchExtension == 0 && p.hitEnemies == {})
  }

  /** `Player.punch`: accepted only when the cooldown has run out, in which
      case it restarts the cooldown and the animation and starts an empty hit
      set; a press during the cooldown changes nothing. */
  function Punched(p: PlayerState): (r: PlayerState)
    ensures p.punchCooldown > 0 ==> r == p
    ensures p.punchCooldown <= 0 ==>
      r.isPunching && r.punchTimer == PUNCH_DURATION && r.punchCooldown == PUNCH_COOLDOWN && r.hitEnemies == {}
    ensures r.(punchCooldown := p.punchCooldown, punchTimer := p.punchTimer,
               isPunching := p.isPunching, hitEnemies := p.hitEnemies) == p
    ensures PunchConsistent(p) ==> PunchConsistent(r)
  {
    if p.punchCooldown <= 0 then
      p.(punchCooldown := PUNCH_COOLDOWN, punchTimer := PUNCH_DURATION, isPunching := true, hitEnemies := {})
    else p
  }

  /** Whether the fist strikes enemy `e` this tick: it is alive, this punch
      has not struck it yet, and the fist touches it. */
  predicate Struck(e: Foe, hits: set<nat>, touching: set<nat>) {
    e.alive && e.id !in hits && e.id in touching
  }

  function Strike(e: Foe, hits: set<nat>, touching: set<nat>): Foe {
    if Struck(e, hits, touching) then Damaged(e, PUNCH_DAMAGE) else e
  }

  /** Every enemy after one tick of the fist. */
  function Strikes(foes: seq<Foe>, hits: set<nat>, touching: set<nat>): (r: seq<Foe>)
    ensures |r| == |foes|
    ensures forall i :: 0 <= i < |foes| ==> r[i] == Strike(foes[i], hits, touching)
  {
    seq(|foes|, i requires 0 <= i < |foes| => Strike(foes[i], hits, touching))
  }

  /** The ids the fist strikes this tick. */
  function StruckIds(foes: seq<Foe>, hits: set<nat>, touching: set<nat>): set<nat> {
    set i | 0 <= i < |foes| && Struck(foes[i], hits, touching) :: foes[i].id
  }

  /** `Player.check_punch_hits`: while punching, every live enemy that the
      fist touches and that this punch has not struck yet takes one punch and
      joins the hit set. An enemy already in the hit set is left alone, no
      enemy loses more than one punch, and every enemy that was hurt is
      recorded. Every enemy is checked against the hit set as it was when
      the pass began; the source adds each id as it goes, which gives the
      same result for a list whose ids are distinct (as the game's list
      always is). */
  function CheckHits(p: PlayerState, foes: seq<Foe>, touching: set<nat>): (r: (PlayerState, seq<Foe>))
    ensures r.0 == p.(hitEnemies := r.0.hitEnemies) && p.hitEnemies <= r.0.hitEnemies
    ensures |r.1| == |foes|
    ensures forall i :: 0 <= i < |foes| ==> r.1[i].id == foes[i].id
    ensures forall i :: 0 <= i < |foes| && foes[i].id in p.hitEnemies ==> r.1[i] == foes[i]
    ensures forall i :: 0 <= i < |foes| ==>
      r.1[i] == foes[i] || (r.1[i] == Damaged(foes[i], PUNCH_DAMAGE) && foes[i].id in r.0.hitEnemies)
    ensures forall id :: id in r.0.hitEnemies - p.hitEnemies ==> id in touching
    ensures !p.isPunching ==> r == (p, foes)
    ensures p.isPunching ==> forall i :: 0 <= i < |foes| ==>
      (r.1[i] == Damaged(foes[i], PUNCH_DAMAGE) <==> Struck(foes[i], p.hitEnemies, touching))
    ensures p.isPunching ==> forall id :: id in r.0.hitEnemies <==>
      id in p.hitEnemies || exists i :: 0 <= i < |foes| && foes[i].id == id && Struck(foes[i], p.hitEnemies, touching)
  {
    if !p.isPunching then (p, foes)
    else
      var hits := p.hitEnemies;
      (p.(hitEnemies := hits + StruckIds(foes, hits, touching)), Strikes(foes, hits, touching))
  }

  /** Adding one more enemy to the list adds its id to the struck ids
      exactly when the fist strikes it. */
  lemma StruckIdsSnoc(foes: seq<Foe>, i: nat, hits: set<nat>, touching: set<nat>)
    requires i < |foes|
    ensures StruckIds(foes[..i + 1], hits, touching) ==
      StruckIds(foes[..i], hits, touching) + if Struck(foes[i], hits, touching) then {foes[i].id} else {}
  {
    var prefix := foes[..i + 1];
    assert prefix[..i] == foes[..i];
    assert forall j :: 0 <= j < i ==> prefix[j] == foes[j];
  }

  /** `Player.update`: move, count the punch cooldown down, then either run
      one tick of the fist animation (timer down by one, extension growing
      linearly, hits checked) or, once the timer is spent, pull the fist in
      and forget the hit set. */
  function PlayerTick(p: PlayerState, keys: Keys, foes: seq<Foe>, touching: set<nat>): (r: (PlayerState, seq<Foe>))
    ensures OnScreen(r.0) && r.0.health == p.health
    ensures |r.1| == |foes| && forall i :: 0 <= i < |foes| ==> r.1[i].id == foes[i].id
    ensures forall i :: 0 <= i < |foes| ==> r.1[i] == foes[i] || r.1[i] == Damaged(foes[i], PUNCH_DAMAGE)
    ensures p.punchCooldown > 0 ==> r.0.punchCooldown == p.punchCooldown - 1
    ensures p.punchCooldown <= 0 ==> r.0.punchCooldown == p.punchCooldown
    ensures PunchConsistent(p) ==> PunchConsistent(r.0)
    ensures PunchConsistent(p) && r.0.isPunching ==>
      r.0.punchTimer < PUNCH_DURATION && FIST_STEP <= r.0.punchExtension <= PUNCH_DURATION * FIST_STEP
    ensures r.0.x == Moved(p, keys).x && r.0.y == Moved(p, keys).y
    ensures p.punchTimer > 0 ==>
      r.0.isPunching && r.0.punchTimer == p.punchTimer - 1 &&
      r.0.punchExtension == (PUNCH_DURATION - r.0.punchTimer) * FIST_STEP
    ensures p.punchTimer > 0 ==> forall i :: 0 <= i < |foes| ==>
      (r.1[i] == Damaged(foes[i], PUNCH_DAMAGE) <==> Struck(foes[i], p.hitEnemies, touching))
    ensures p.punchTimer > 0 ==> forall id :: id in r.0.hitEnemies <==>
      id in p.hitEnemies || exists i :: 0 <= i < |foes| && foes[i].id == id && Struck(foes[i], p.hitEnemies, touching)
    ensures p.punchTimer <= 0 ==> r.1 == foes && r.0.punchTimer == p.punchTimer && !r.0.isPunching && r.0.punchExtension == 0
    ensures p.punchTimer == 0 ==> r.0.hitEnemies == {}
  {
    var moved := Moved(p, keys);
    var cooled := moved.(punchCooldown := if moved.punchCooldown > 0 then moved.punchCooldown - 1 else moved.punchCooldown);
    if cooled.punchTimer > 0 then
      var timer := cooled.punchTimer - 1;
      CheckHits(cooled.(punchTimer := timer, isPunching := true,
                        punchExtension := (PUNCH_DURATION - timer) * FIST_STEP), foes, touching)
    else
      var idle := cooled.(isPunching := false, punchExtension := 0);
      (if idle.punchTimer == 0 && !idle.isPunching then idle.(hitEnemies := {}) else idle, foes)
  }

  /** One frame as the player sees it: the keys held, whether the punch key
      was pressed, and the ids of the enemies the fist touches. */
  datatype Press = Press(keys: Keys, punch: bool, touching: set<nat>)

  /** The result of a run of frames: the player, the enemies, and how many
      punch presses were accepted. */
  datatype Run = Run(player: PlayerState, foes: seq<Foe>, landed: nat)

  /** A run of frames of the player alone; in each, a press is handled
      before the update. The enemies change only by the player's punches:
      their own updates, removals and spawns between frames are not part of
      this run (in a full game frame an enemy's update changes only its
      cooldown, and a removal or spawn hurts no other enemy). */
  function PlayerRun(p: PlayerState, foes: seq<Foe>, presses: seq<Press>): Run
    decreases |presses|
  {
    if presses == [] then Run(p, foes, 0)
    else
      var f := presses[0];
      var lands := f.punch && p.punchCooldown <= 0;
      var (p', foes') := PlayerTick(if f.punch then Punched(p) else p, f.keys, foes, f.touching);
      var rest := PlayerRun(p', foes', presses[1..]);
      rest.(landed := rest.landed + if lands then 1 else 0)
  }

  /** While the cooldown lasts no press is accepted, and the cooldown runs
      down one per frame. */
  lemma {:induction false} CooldownBlocksPunches(p: PlayerState, foes: seq<Foe>, presses: seq<Press>)
    requires |presses| <= p.punchCooldown
    ensures PlayerRun(p, foes, presses).landed == 0
    ensures PlayerRun(p, foes, presses).player.punchCooldown == p.punchCooldown - |presses|
    decreases |presses|
  {
    if presses != [] {
      var f := presses[0];
      var (p', foes') := PlayerTick(if f.punch then Punched(p) else p, f.keys, foes, f.touching);
      CooldownBlocksPunches(p', foes', presses[1..]);
    }
  }

  /** Two accepted punches are at least PUNCH_COOLDOWN updates apart: after
      the frame in which a punch lands, no press is accepted in the next 19
      frames, and the cooldown reaches zero exactly at the 19th. */
  lemma PunchesTwentyTicksApart(p: PlayerState, foes: seq<Foe>, f: Press, presses: seq<Press>)
    requires f.punch && p.punchCooldown <= 0
    requires |presses| < PUNCH_COOLDOWN
    ensures PlayerRun(p, foes, [f] + presses).landed == 1
    ensures PlayerRun(p, foes, [f] + presses).player.punchCooldown == PUNCH_COOLDOWN - 1 - |presses|
  {
    var (p', foes') := PlayerTick(Punched(p), f.keys, foes, f.touching);
    assert ([f] + presses)[1..] == presses;
    CooldownBlocksPunches(p', foes', presses);
  }

  /** The hit-set invariant of one punch, relating the enemies `now` to the
      enemies `orig` at its start: each has lost nothing or exactly one
      punch, and one that lost a punch is in the hit set, unless the
      animation is over. */
  predicate OncePerPunch(p: PlayerState, now: seq<Foe>, orig: seq<Foe>) {
    |now| == |orig| &&
    forall i :: 0 <= i < |orig| ==>
      now[i].id == orig[i].id &&
      (now[i] == orig[i] ||
       (now[i] == Damaged(orig[i], PUNCH_DAMAGE) && (orig[i].id in p.hitEnemies || p.punchTimer <= 0)))
  }

  lemma TickKeepsOncePerPunch(p: PlayerState, now: seq<Foe>, orig: seq<Foe>, keys: Keys, touching: set<nat>)
    requires OncePerPunch(p, now, orig)
    ensures OncePerPunch(PlayerTick(p, keys, now, touching).0, PlayerTick(p, keys, now, touching).1, orig)
  {
    var (p', now') := PlayerTick(p, keys, now, touching);
    if p.punchTimer > 0 {
      assert p'.punchTimer >= 0;
      forall i | 0 <= i < |orig|
        ensures now'[i] == orig[i] ||
          (now'[i] == Damaged(orig[i], PUNCH_DAMAGE) && orig[i].id in p'.hitEnemies)
      {
        if now[i] != orig[i] {
          assert orig[i].id in p.hitEnemies;
        }
      }
    }
  }

  lemma {:induction false} RunKeepsOncePerPunch(p: PlayerState, now: seq<Foe>, orig: seq<Foe>, presses: seq<Press>)
    requires |presses| <= p.punchCooldown
    requires OncePerPunch(p, now, orig)
    ensures OncePerPunch(PlayerRun(p, now, presses).player, PlayerRun(p, now, presses).foes, orig)
    decreases |presses|
  {
    if presses != [] {
      var f := presses[0];
      var (p', now') := PlayerTick(if f.punch then Punched(p) else p, f.keys, now, f.touching);
      TickKeepsOncePerPunch(p, now, orig, f.keys, f.touching);
      RunKeepsOncePerPunch(p', now', orig, presses[1..]);
    }
  }

  /** One punch hurts each enemy at most once: over the frame in which a
      punch lands and the cooldown frames after it, however many animation
      ticks an enemy spends under the fist, it loses either nothing or
      exactly one punch's damage. */
  lemma OnePunchHitsEachEnemyOnce(p: PlayerState, foes: seq<Foe>, f: Press, presses: seq<Press>)
    requires f.punch && p.punchCooldown <= 0
    requires |presses| < PUNCH_COOLDOWN
    ensures var r := PlayerRun(p, foes, [f] + presses);
      |r.foes| == |foes| &&
      forall i :: 0 <= i < |foes| ==>
        r.foes[i] == foes[i] || r.foes[i] == Damaged(foes[i], PUNCH_DAMAGE)
  {
    var start := Punched(p);
    assert OncePerPunch(start, foes, foes);
    TickKeepsOncePerPunch(start, foes, foes, f.keys, f.touching);
    var (p', foes') := PlayerTick(start, f.keys, foes, f.touching);
    assert ([f] + presses)[1..] == presses;
    RunKeepsOncePerPunch(p', foes', foes, presses);
  }

  /** A punch lands: in the frame a press is accepted, every live enemy the
      fist touches loses one punch's damage and enters the new hit set. */
  lemma PunchLandsOnTouched(p: PlayerState, foes: seq<Foe>, f: Press, i: nat)
    requires f.punch && p.punchCooldown <= 0
    requires i < |foes| && foes[i].alive && foes[i].id in f.touching
    ensures var r := PlayerRun(p, foes, [f]);
      i < |r.foes| && r.foes[i] == Damaged(foes[i], PUNCH_DAMAGE) && foes[i].id in r.player.hitEnemies
  {
    var start := Punched(p);
    assert Struck(foes[i], start.hitEnemies, f.touching);
  }
}
