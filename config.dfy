/**
 * The game's configuration constants (the `config` module that `entities.py` and
 * `game.py` import; its values are those of the single-file copy, Codigocompleto.py).
 */
module Config {
  /** Grid bounds the entities check moves against. */
  const Rows: int := 31
  const Cols: int := 28
  /** Frames per second of the real-time loop; only used to size the super-mode intro. */
  const Fps: int := 30
  const InitialLives: int := 3
  /** Length of super mode (and of a ghost's vulnerability), in ticks. */
  const SuperModeDuration: int := 450
  /** The player moves once every PlayerMoveDelay ticks, the ghosts once every GhostMoveDelay ticks. */
  const PlayerMoveDelay: int := 4
  const GhostMoveDelay: int := 6
}
