/** The tuning numbers of the punching game: arena size, entity sizes,
    speeds, cooldowns, damage and scoring. Each one is a literal in the
    game's source; here each is named once. */
module Settings {
  // Arena
  const SCREEN_WIDTH: int := 800
  const SCREEN_HEIGHT: int := 600

  // Player
  const PLAYER_WIDTH: int := 50
  const PLAYER_HEIGHT: int := 80
  const PLAYER_SPEED: int := 5
  const PLAYER_MAX_HEALTH: int := 100

  // The punch
  const PUNCH_COOLDOWN: int := 20   // ticks before the next punch is accepted
  const PUNCH_DURATION: int := 10   // ticks the fist animation lasts
  const FIST_STEP: int := 4         // extension gained per animation tick
  const PUNCH_DAMAGE: int := 25

  // Enemies
  const ENEMY_WIDTH: int := 40
  const ENEMY_HEIGHT: int := 60
  const ENEMY_MAX_HEALTH: int := 50
  const ENEMY_ATTACK_DAMAGE: int := 10
  const ENEMY_ATTACK_COOLDOWN: int := 60

  // The game loop
  const SPAWN_INTERVAL: int := 120  // ticks between two spawns
  const KILL_SCORE: int := 10
}
