# Punching game: the per-tick combat state machine

A model of the simulation core of `punchgame.py`, a small pygame arena game.
The player walks around the screen and punches; enemies spawn at the screen
edges, strike the player on a cooldown and die from punches; the game counts
score and ends when the player's health runs out.

The project has two layers:

- **Rules** (`settings.dfy`, `enemy_rules.dfy`, `player_rules.dfy`,
  `game_rules.dfy`): the state of each entity as a value (`Foe`,
  `PlayerState`, `World`) and each operation as a function on those values,
  together with the lemmas that state what the game promises: the player
  stays on screen, punches are at least 20 ticks apart, one punch hurts an
  enemy at most once, a fresh enemy dies on its second punch, an enemy
  attacks at most once every 60 ticks, the enemy pass removes exactly the
  dead and keeps the survivors' order, one spawn per 120 ticks at a position
  just outside the screen, and a game invariant (on-screen player,
  consistent punch fields, sound enemies with distinct ids) kept by every
  frame.
- **Objects** (`punchgame.dfy`): the classes `Player`, `Enemy` and `Game`
  with the fields the game updates in place. Every method that changes
  state is proved to take its object(s) from the old state to exactly the
  state the rule function prescribes (`State()` / `Snapshot()` of the new
  heap equals the rule applied to the old one), so the rule lemmas carry
  over to the objects. The loops of `check_punch_hits` and of
  `Game.update` are `while` loops with their invariants.

Inputs the game reads from pygame, the mouse, floating-point geometry and
`random` are parameters:

- `keys: Keys` — the direction keys held (arrow keys or WASD);
- `touching: set<nat>` — the ids of the enemies whose centre lies within
  35 pixels of the fist this tick (the `distance < 35` test);
- `inRange: set<nat>` — the ids of the enemies whose top-left corner lies
  within 40 pixels of the player's top-left corner, measured before the
  enemy steps toward the player (the `distance < 40` test, which reuses the
  distance computed for the step);
- `spawn: Spawn` — the side and the coordinate `spawn_enemy` draws at
  random, constrained to the ranges `randint` draws from (`ValidSpawn`);
- `events: Events` — whether a quit event and a space key press arrived
  this frame.

`id(enemy)`, which the hit set records, is a stable `id` field handed out
by `Game` from a counter (`nextId`).

## Model

| member | source | states |
|---|---|---|
| PunchGame.Player.constructor | punchgame.py:23-37 | a new player is at the given point with 100 health, no cooldown, no punch in progress, fist in and an empty hit set |
| PunchGame.Player.Update | punchgame.py:39-74 | the player's new state and every enemy's new state are exactly `PlayerTick` of the old ones: move, count the punch cooldown down, then one animation tick with hits checked, or fist in and hit set cleared |
| PunchGame.Player.Move | punchgame.py:42-54 | the new position is `Moved` of the old one: one step per held key, then clamped to the screen; no other field changes |
| PunchGame.Player.Punch | punchgame.py:76-81 | the new state is `Punched` of the old one |
| PunchGame.Player.CheckPunchHits | punchgame.py:91-115 | one pass over the enemy list leaves the player and the enemies exactly as `CheckHits` says, with the loop invariant that the hit set so far is the old one plus the ids struck among the enemies visited |
| PunchGame.Enemy.constructor | punchgame.py:219-228 | a new enemy at (x, y) with 50 health, no cooldown, alive |
| PunchGame.Enemy.TakeDamage | punchgame.py:251-254 | the enemy's new state is `Damaged` of the old one |
| PunchGame.Enemy.Update | punchgame.py:230-249 | the enemy's new state and the player's health are exactly `EnemyTick` of the old ones; nothing else of the player changes |
| PunchGame.Game.constructor | punchgame.py:271-281 | a new game is `NewWorld()`: running, player centred, no enemies, timer and score zero; the invariant holds |
| PunchGame.Game.SpawnEnemy | punchgame.py:283-299 | the list grows by exactly one fresh enemy at its end, with the next id and at `SpawnPosition`; the enemies already listed are unchanged, as are the timer, score and running flag |
| PunchGame.Game.HandleEvents | punchgame.py:301-307 | a quit stops the run and a space press calls `punch`; the new world is `Handled` of the old one |
| PunchGame.Game.Update | punchgame.py:309-327 | the new world is `GameStep` of the old one (player, enemies' pass, spawn clock, game over, in this order) and the invariant is kept |
| PunchGame.Game.PlayerTurn | punchgame.py:310 | the world after `self.player.update(self.enemies)` is `PlayerStage` of the old one: only the player and the enemies' states change |
| PunchGame.Game.GameOver | punchgame.py:325-327 | the world is `OverStage` of the old one: the run stops iff the player's health is zero or below, and nothing else changes |
| PunchGame.Game.UpdateEnemies | punchgame.py:313-317 | after the loop over a copy of the list, the world is `EnemyStage` of the old one: the list holds exactly the survivors of `EnemyPass`, in order, the player's health is the pass's, and the score has grown by 10 per removed enemy |
| PunchGame.Game.VisitAll | punchgame.py:313-317 | what the loop amounts to: the player's state differs from the old one in its health only, which is the pass's; the score has grown by 10 per removed enemy; the list left holds, in order, exactly the states of `EnemyPass`'s survivors |
| PunchGame.Game.Loop | punchgame.py:313-317 | the loop: every enemy has had its own update (`Ticked`), the player's health and the score follow `EnemyPass`, and the list equals the visited entries still alive, in order; the invariants say the same of the visited prefix at every step |
| PunchGame.Game.Visit | punchgame.py:314-317 | one turn of that loop takes each of those invariants from `i` enemies to `i + 1`, removing the enemy from the list exactly when it is no longer alive |
| PunchGame.Game.SpawnTick | punchgame.py:319-323 | the world is `SpawnStage` of the old one: the timer counts one tick and, on reaching 120, one enemy spawns and the timer restarts from 0 |
| PunchGame.Game.Tick | punchgame.py:357-360 | one frame of the run loop: the new world is `GameFrame` of the old one and the invariant is kept |
| PunchGame.RemoveFirstOccurrence | punchgame.py:316 | `list.remove` drops exactly the first entry equal to the enemy and keeps the rest in order |
| PunchGame.RemoveNext | punchgame.py:315-316 | removing a dead enemy from the list as it stands at its turn gives the list with that enemy's entry gone and every other entry in place |
| PunchGame.KeptStates | punchgame.py:313-317 | once the loop is done, the states of the entries left in the list are exactly `EnemyPass`'s survivors |
| PunchGame.NotLater | punchgame.py:102-103 | in a list of enemies with distinct ids, no other entry is, or has the id of, the enemy being visited, so each enemy's turn touches only itself |
| EnemyRules.Damaged | punchgame.py:251-254 | health drops by exactly `damage`, the enemy is alive afterwards iff it was alive and its health is still positive, and nothing else changes |
| EnemyRules.DeadStaysDead | punchgame.py:251-254 | once `alive` is false, no sequence of hits of any size makes it true again |
| EnemyRules.HitsAccumulate | punchgame.py:251-254 | for an enemy that is alive only with positive health, after any run of non-negative hits the enemy has lost exactly their sum and is alive iff it was alive with health above that sum |
| EnemyRules.HitsToKill | punchgame.py:251-254 | a live enemy survives `k` punches iff its health exceeds `25 * k` |
| EnemyRules.FreshEnemyDiesOnSecondPunch | punchgame.py:251-254 | a fresh enemy (50 health) survives one 25-damage punch and dies on the second |
| EnemyRules.Ticked | punchgame.py:230-249 | only the cooldown changes; a dead enemy is untouched; an attacking enemy ends at cooldown 59; a live enemy that does not attack counts a running cooldown down by one, and one whose cooldown is already spent is left exactly as it was; a cooldown in [0, 60) stays there |
| EnemyRules.EnemyTick | punchgame.py:230-249 | the player's health falls by exactly 10 iff the enemy is alive, in reach and off cooldown, and is unchanged otherwise; an enemy that strikes ends at cooldown 59; a live enemy that does not strike counts a running cooldown down by one; a dead enemy, or one idle with its cooldown spent, is left exactly as it was; the enemy's id, position, health and liveness are always kept |
| EnemyRules.NoAttackWhileCoolingDown | punchgame.py:243-249 | while its cooldown lasts, an enemy cannot lower the player's health, wherever the player stands, and its cooldown falls by one per tick |
| EnemyRules.AttacksSixtyTicksApart | punchgame.py:243-249 | after an attack the enemy leaves the player alone for the next 59 ticks, its cooldown reaching 0 on the 59th, so two attacks are at least 60 ticks apart |
| PlayerRules.Clamp | punchgame.py:53-54 | `max(0, min(hi, v))` lies in [0, hi] and is the point of that range nearest to `v` |
| PlayerRules.Moved | punchgame.py:42-54 | whatever keys are held the player ends on screen (0 ≤ x ≤ 750, 0 ≤ y ≤ 520); on each axis a stepped coordinate below 0 becomes 0, one beyond the edge becomes the edge, and one in between is kept; from on screen, it moves at most 5 per axis; away from the edges it moves exactly 5 along each axis whose keys disagree; nothing but the position changes |
| PlayerRules.Punched | punchgame.py:76-81 | a press with cooldown ≤ 0 sets cooldown 20, timer 10, punching, and empties the hit set; any other press changes nothing; position, health and fist extension never change; the punch-field invariant is kept |
| PlayerRules.CheckHits | punchgame.py:91-115 | when not punching nothing changes; while punching, an enemy takes exactly one 25-damage punch iff it is alive, not yet in the hit set and touched by the fist, and is otherwise untouched; the new hit set is the old one plus exactly the ids of the enemies so struck; nothing of the player but the hit set changes |
| PlayerRules.PlayerTick | punchgame.py:39-74 | the player ends at `Moved`'s position with its health untouched; a positive cooldown falls by exactly 1 and a spent one stays; with animation time left the timer falls by one, the player is punching with the fist out 4 per elapsed tick, and exactly the live, touched, not-yet-hit enemies take one punch and join the hit set; with the timer spent no enemy is touched, the fist is in and (timer 0) the hit set is cleared; the punch-field invariant is kept |
| PlayerRules.CooldownBlocksPunches | punchgame.py:56-81 | while the cooldown lasts no press is accepted, and the cooldown falls by one per frame |
| PlayerRules.PunchesTwentyTicksApart | punchgame.py:56-81 | after a frame in which a punch lands, no press is accepted in the next 19 frames, so two accepted punches are at least 20 updates apart; stated over the player's own frames (`PlayerRun`), in which the enemies change only by punches |
| PlayerRules.TickKeepsOncePerPunch | punchgame.py:60-115 | one player update keeps the per-punch invariant: each enemy has lost nothing or exactly one punch since the punch began, and one that lost a punch is in the hit set while the animation lasts; once the timer is spent the set is cleared and only the nothing-or-one-punch bound remains |
| PlayerRules.RunKeepsOncePerPunch | punchgame.py:60-115 | over every frame of the punch's cooldown, each enemy has lost nothing or exactly one punch since the punch began; one that lost a punch is in the hit set while the animation lasts, and once the timer is spent the set is cleared and only the nothing-or-one-punch bound remains |
| PlayerRules.PunchLandsOnTouched | punchgame.py:60-115 | in the frame a press is accepted, every live enemy the fist touches loses exactly 25 health and enters the hit set |
| PlayerRules.OnePunchHitsEachEnemyOnce | punchgame.py:76-115 | over the frame a punch lands in and the cooldown frames after it, each enemy loses either nothing or exactly 25 health, however long it stays under the fist; stated over the player's own frames (`PlayerRun`): enemy updates, removals and spawns between frames are not interleaved, though an enemy's own update changes only its cooldown |
| GameRules.SpawnPosition | punchgame.py:283-299 | a spawn position lies just outside the screen: the enemy's box does not overlap the screen, touches its border, and lies wholly beside one side |
| GameRules.EverySpawnSiteReachable | punchgame.py:285-297 | conversely, every such position is one `spawn_enemy` can draw |
| GameRules.SpawnCadence | punchgame.py:320-323 | from a timer in [0, 120), `n` ticks spawn exactly `(t + n) / 120` enemies and leave the timer at `(t + n) % 120` |
| GameRules.EnemyPass | punchgame.py:313-317 | every enemy is either kept or counted as removed, the player's health never rises, and every kept enemy is alive |
| GameRules.Living | punchgame.py:315 | the live enemies, in order: an enemy is in the result iff it is in the list and alive |
| GameRules.UpdatedAll | punchgame.py:314 | the list has the same length and order; entry `i` is enemy `i` after its own update (`Ticked`), keeping its id, position, health and liveness, only its cooldown moving |
| GameRules.PassRemovesExactlyTheDead | punchgame.py:313-317 | the pass keeps exactly the enemies alive after their update, in their order; removes the rest, one removal each; and costs the player 10 health per attacking enemy |
| GameRules.StepAccounting | punchgame.py:309-327 | per tick: score rises by 10 per removed enemy; the player is the updated player less 10 health per attacker; the survivors keep their order; at most one enemy is added, at the end, exactly when the spawn clock fires; the run goes on iff it was running and the player's health is positive |
| GameRules.SpawnAndOver | punchgame.py:319-327 | the spawn clock and the game-over test keep the enemies as a prefix, add one fresh enemy at the end exactly when the clock fires, leave score and player alone, and stop the run iff the player's health is zero or below |
| GameRules.NewWorldInvariant | punchgame.py:271-281 | a new game satisfies the invariant |
| GameRules.LivingKeepsDistinct | punchgame.py:315-316 | dropping the dead keeps the ids distinct |
| GameRules.HandledKeepsInvariant | punchgame.py:301-307 | handling the events keeps the invariant |
| GameRules.PunchedLivingSound | punchgame.py:102-115 | after the player's punch every live enemy is still sound |
| GameRules.UpdatedAllSound | punchgame.py:243-249 | the enemies' own updates keep every enemy sound and the ids distinct |
| GameRules.AppendKeepsSound | punchgame.py:299 | appending a fresh enemy with the next id keeps the ids distinct and every enemy sound |
| GameRules.StepKeepsFoesSound | punchgame.py:309-327 | after a tick the enemies are sound, with distinct ids below the next id |
| GameRules.StepKeepsInvariant | punchgame.py:309-327 | a tick keeps the invariant, whatever the inputs |
| GameRules.FrameKeepsInvariant | punchgame.py:357-360 | a frame (events, then update) keeps the invariant, whatever the events and inputs |

## Left out

- Drawing (`Player.draw`, `Enemy.draw`, `Game.draw`, `rotate_point`), colours, fonts and the health bars: rendering only.
- pygame I/O and the frame clock (`pygame.key.get_pressed`, `pygame.event.get`, `clock.tick`, `pygame.time.wait`, the game-over screen): the keys, events and geometry outcomes of a frame are parameters instead.
- The punch angle (`math.atan2` of the mouse position) and the fist position (`cos`/`sin`): floating point; the fist's contact with each enemy is the `touching` input.
- The distance tests `distance < 35` and `distance < 40`: floating point; they are the `touching` and `inRange` inputs.
- Enemy steering toward the player (punchgame.py:234-241): floating-point motion; an enemy's `x` and `y` stay where it spawned. `Enemy.speed` is therefore not modelled.
- `Player.punch_range` (set but never read) and the `width`/`height` fields, which are the constants of the `Settings` module.
- `random.randint` in `spawn_enemy`: the side and coordinate are the `spawn` input, constrained to the ranges drawn from.
- `id(enemy)`: CPython may reuse the id of a collected enemy for a new one, so a stale entry in `hit_enemies` could in principle shield a new enemy; the model gives every enemy a never-reused id.
- PunchGame.Game.HandleEvents: the frame's event queue is summarised as two flags; several space presses in one frame act as one, which is what the source does too, since a second `punch` in the same frame finds the cooldown at 20 and changes nothing.
- PunchGame.Game.UpdateEnemies: the source removes each dead enemy from `self.enemies` inside the loop; the model removes it from a local list equal to `self.enemies` and writes that back after the loop. No code runs in between that reads `self.enemies`, so the outcome is the same.
- OnePunchHitsEachEnemyOnce, PunchesTwentyTicksApart: proved over `PlayerRun`, the player's frames alone, not over full game frames (`GameFrame`); the enemies' own updates, removals and spawns between frames are not interleaved there. An enemy's update changes only its cooldown, so the per-punch damage bound is not affected by them, but that combination is not proved.
- `hello_world.py`: it only reads an environment variable and prints.
