/** The game-rule constants of config.py that the engine depends on. */
module Config {

  /** Width of the playfield in pixels. */
  const ScreenWidth: int := 600

  /** Height of the playfield in pixels; an enemy whose top edge passes it ends the session. */
  const ScreenHeight: int := 400

  /** A boss is spawned each time the kill counter reaches a multiple of this. */
  const BossSpawnInterval: int := 15

  /** Lifetime of the triple-shot power-up, in milliseconds of the game clock. */
  const TripleShotDuration: int := 3600
}
