/** Field dimensions shared by every component of the game (src/lib.rs). */
module Config {
  /** Number of rows of the play field; row 0 is the top. */
  const NumRows: nat := 20
  /** Number of columns of the play field; column 0 is the left edge. */
  const NumCols: nat := 40
}
