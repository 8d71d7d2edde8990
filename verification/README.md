# rust-invader: a Dafny model of the game core

This project models the simulation core of a terminal Space Invaders game. The
play field is 40 columns by 20 rows. The project covers four parts:

- **The invader formation.** It has an ordered army of invaders, a shared
  direction, and a move timer. On each due tick it steps one column. At the
  edge it is heading for, it instead descends one row, turns round, and
  shortens its move period by 250 ms, down to a floor of 250 ms.
- **The player's ship.** Its column is clamped to the field and it holds at
  most two shots. Hit detection sends each shot that is not exploding to the
  formation's `kill_invader_at`.
- **The frame-diff renderer.** It decides which cells of the current frame get
  written to the terminal. It writes every cell under `force`, and otherwise
  only the cells that changed. Writes go in column-major order.
- **The render thread's loop.** It replays frames one after another over the
  previous frame.

Files:

- `config.dfy` holds the field constants (`Config`).
- `option.dfy` holds `Options.Option`.
- `timer.dfy` is the abstract countdown timer (`Timing`).
- `invader.dfy` is the formation (`Formation`).
- `player.dfy` is the ship and its shots (`Players`).
- `render.dfy` is the renderer and the terminal seen as a frame (`Rendering`).
- `seqs.dfy` holds subsequences (`Sequences`).
- `scenarios.dfy` holds concrete situations from the game's rules (`Scenarios`).

Modelling choices:

- **Timer.** The countdown timer comes from a library that is not shown. A
  timer is its period, its time left and its `ready` flag, all in whole
  milliseconds. The caller supplies the result of `Timer::update(delta)` as a
  `Tick`, which holds the new time left and the new `ready` flag. The model
  assumes only that advancing a timer keeps its period.
- **Direction.** The source stores the direction as an `i32` that is only
  ever `-1` or `1`. The model uses the datatype `Left | Right`, so the type
  itself guarantees the direction is one of the two.
- **Shots.** A shot is its position and its `exploding` flag. `Shot::update`
  and `Shot::dead` are function parameters of `Players.Update`. A new shot is
  assumed not to be exploding. `explode` is assumed to set `exploding` and
  nothing else.
- **Hit report.** `Players.DetectHits` returns the source's results: the
  updated ship, the updated army and the hit flag. It also returns one
  `Outcome` per shot, which is a record of the `kill_invader_at` calls made:
  `Skipped`, `Missed` or `Killed`.
- **Unsigned arithmetic.** `invader.rs:70` subtracts 250 from a `u128`
  duration. `player.rs:35` computes `y - 1` on a `usize`. Both would underflow
  on small values, so each appears as a precondition: `Formation.Update` and
  `Players.Shoot`. A formation built by `Formation.New` is valid and above the
  bottom row. `Formation.KillKeepsValid` shows that a kill keeps it so. `Formation.UpdateKeepsValid`
  keeps it valid and shows that it meets the first precondition. So a
  formation reached by updates and kills, before the game is lost, meets the
  first precondition. A reachable ship is always on row 19, so it meets the
  second.
- **A mismatch in `main.rs`.** `src/main.rs:92` calls `invaders.upqdate(delta)`,
  but no method of that name is defined. The model uses `update`, which is
  defined at `src/invader.rs:46`.

## Model

| member | source | states |
|---|---|---|
| `Formation.SpawnArmy` | src/invader.rs:21-30 | An army that lists the spawn layout in order holds an invader on a cell iff that cell passes the spawn test, and is in strictly increasing column-major order. |
| `Formation.New` | src/invader.rs:18-37 | A new formation has exactly 72 invaders: one on each cell with 1 < x < 38, 0 < y < 10 and both coordinates even, and no others. They come in strictly increasing column-major order. The formation heads right with a fresh 2000 ms timer. It is on the field, above the bottom row, with its period in [250, 2000]. |
| `Formation.SlotsAreSpawnCells` | src/invader.rs:21-30 | Every position in the closed-form spawn layout passes the spawn test of the nested loop. |
| `Formation.SlotsAreOrdered` | src/invader.rs:21-22 | The spawn layout is strictly increasing in x-major order, which matches the loop order (x outer, y inner) and rules out duplicates. |
| `Formation.SpawnCellsAreSlots` | src/invader.rs:23-29 | Every cell that passes the spawn test appears in the spawn layout. |
| `Formation.MinOrZero` | src/invader.rs:52-54 | The result is a lower bound of every element. It is one of the elements when the sequence is non-empty, and 0 when it is empty. |
| `Formation.MaxOrZero` | src/invader.rs:60-62 | The result is an upper bound of every element. It is one of the elements when the sequence is non-empty, and 0 when it is empty. |
| `Formation.NextPeriod` | src/invader.rs:70-71 | The period after a turn is the larger of the old period minus 250 and the 250 ms floor. It never exceeds the old period. |
| `Formation.Update` | src/invader.rs:46-83 | If the tick is not due: returns false, and the army and direction are unchanged. If due: returns true and keeps the army's size and order. Heading left with an invader in column 0, or with an empty army: turns right, every y grows by 1, x is unchanged, and the timer restarts with the period shortened by 250 ms, down to the 250 ms floor. Heading right with an invader in column 39: the mirror image. Heading left with every x > 0, or right with every x < 39: every x moves one column in that direction, y is unchanged, and the timer restarts. The period never grows and never drops below its floor. |
| `Formation.UpdateStaysInBounds` | src/invader.rs:51-79 | An update keeps every column in [0, 39]: the turn at column 0 or 39 happens before a step would leave the field. If the army had not reached the bottom, every row stays below 20. |
| `Formation.UpdateKeepsValid` | src/invader.rs:51-79 | A formation on the field, with a period in [250, 2000] and not at the bottom, can always be updated: the subtraction at line 70 does not underflow. After the update it is still on the field with its period in [250, 2000]. |
| `Formation.Run` | src/main.rs:92-117 | Over any sequence of ticks, stopping once the bottom row is reached, a valid formation stays valid. Its size never changes and its period never grows. |
| `Formation.Position` | src/invader.rs:85-88 | Returns no index exactly when no invader has the position. Otherwise returns the first index holding it. |
| `Sequences.RemovalIsSubsequence` | src/invader.rs:89 | Removing one element of a sequence, as `Vec::remove` does, leaves the others in their order. |
| `Formation.KillInvaderAt` | src/invader.rs:84-94 | Returns true iff some invader is at (x, y). On true it removes exactly the first such invader: the army becomes the prefix before it followed by the suffix after it, so one copy of that invader leaves the multiset. On false nothing changes. The timer and the direction are never touched. |
| `Formation.KillKeepsOrder` | src/invader.rs:84-94 | After a kill the surviving invaders keep their order: the new army is a subsequence of the old. |
| `Formation.KillKeepsValid` | src/invader.rs:84-94 | A kill keeps a formation on the field with its period in [250, 2000], and one above the bottom row stays above it. |
| `Formation.AllKilled` | src/invader.rs:96-98 | The game is won iff no invader is left. |
| `Formation.ReachedBottom` | src/invader.rs:100-102 | The bottom is reached iff some invader is on row 19 or lower. It is false for an empty army. |
| `Players.New` | src/player.rs:14-20 | A new ship is valid, at column 20, row 19, with no shots. |
| `Players.MoveLeft` | src/player.rs:22-26 | Moves one column left, or does nothing in column 0. The row and the shots are untouched and a valid ship stays valid. |
| `Players.MoveRight` | src/player.rs:27-31 | Moves one column right, or does nothing in column 39. The row and the shots are untouched and a valid ship stays valid. |
| `Players.MovesUndoEachOther` | src/player.rs:22-31 | Away from the edges, a move left followed by a move right (and the other way round) restores the ship. |
| `Players.Shoot` | src/player.rs:32-40 | Succeeds iff fewer than two shots are held, counting exploding ones. On success it appends one new shot at (x, y - 1). On failure nothing changes. A valid ship never holds more than two shots. |
| `Players.Retain` | src/player.rs:46 | No kept shot is dead, and every shot that is not dead is kept exactly as often as it occurred. |
| `Players.RetainKeepsOrder` | src/player.rs:46 | The kept shots are a subsequence of the original shots: their relative order is preserved. |
| `Players.Update` | src/player.rs:41-47 | After advancing every shot, no kept shot is dead. Every advanced shot that is not dead is kept as often as it occurs, and the survivors keep their order. The ship's position is unchanged and the shot count does not grow. |
| `Players.DetectOne` | src/player.rs:51-55 | An exploding shot is skipped and changes nothing. Otherwise the shot is passed to `kill_invader_at`. It explodes iff an invader was at its position, and then the army becomes exactly what `kill_invader_at` leaves: one copy of that invader removed, the others in their order. A miss means no invader was at the position. The timer and the direction are untouched. |
| `Players.DetectHits` | src/player.rs:48-59 | Returns true iff some kill succeeded, which holds iff the army shrank. The invaders that leave are exactly those at the positions of the killing shots, one per kill, and the survivors keep their order. Shots take their turns in list order. A shot that is not exploding kills exactly when its target is still in the army at its turn, meaning the starting army less what the earlier shots killed. Already-exploding shots are never passed to `kill_invader_at`, and only shots whose kill succeeded start exploding. A shot kills only an invader that was in the army at the start, and after a miss no invader is at that shot's position at the end. Shot positions, the shot count and the ship are unchanged. |
| `Rendering.CellWrites` | src/render.rs:17-23 | Within one column, from row y downwards, only selected cells are written, each with its own coordinates and its current glyph. If no cell is selected, nothing is written. |
| `Rendering.CellWritesComplete` | src/render.rs:17-19 | Within one column, from row y downwards, every selected cell is written. |
| `Rendering.CellWritesOrdered` | src/render.rs:17 | Within one column, the writes come in ascending row order. |
| `Rendering.ColumnWrites` | src/render.rs:16-24 | From column x onwards, only selected cells are written, each with its own coordinates and its current glyph. |
| `Rendering.ColumnWritesComplete` | src/render.rs:16-19 | From column x onwards, every selected cell is written. |
| `Rendering.ColumnWritesOrdered` | src/render.rs:16-17 | From column x onwards, the writes come in column-major order. |
| `Rendering.NothingSelectedNoWrites` | src/render.rs:16-19 | If no cell from column x onwards is forced or changed, nothing is written. |
| `Rendering.Render` | src/render.rs:8-24 | The clear prelude is sent exactly under `force`, before any write. Every cell is written under `force`. Without it, a cell is written iff it differs from the last frame. Each write uses the cell's own coordinates and its glyph in the current frame. Writes come in column-major order. |
| `Rendering.RenderNothingIff` | src/render.rs:19 | `render` writes nothing iff `force` is off and every cell equals the last frame's. |
| `Rendering.RenderUnchanged` | src/render.rs:19 | Rendering a frame over an identical one without `force` produces no prelude and no writes. |
| `Rendering.SetCell` | src/render.rs:20-21 | Writing one cell keeps the shape of the screen. |
| `Rendering.Apply` | src/render.rs:16-23 | Applying a sequence of cell writes keeps the shape of the screen. |
| `Rendering.ApplyCells` | src/render.rs:20-21 | If each write carries the current frame's glyph for its cell, then after applying the writes each targeted cell shows the current frame and every other cell is unchanged. |
| `Rendering.RenderReproduces` | src/render.rs:16-23 | Applying the writes that `render` emits to the last frame yields exactly the current frame, with or without `force`. |
| `Rendering.Replay` | src/main.rs:46-54 | The render thread's loop, rendering each received frame over the previous one, keeps the screen's shape. |
| `Rendering.ForcedRenderShows` | src/render.rs:9-23 | A forced render writes every cell, so after it any screen of the frame's shape shows the current frame, whatever it showed before. |
| `Rendering.RenderThread` | src/main.rs:42-55 | The render thread first renders the initial frame with `force`, then renders each received frame over the previous one. Starting from any screen of the right shape, it ends showing the most recent frame, or the initial one if none was received. |
| `Rendering.ReplayShowsLatest` | src/main.rs:43-54 | After the render thread has drawn any sequence of frames, the screen shows the most recent frame, or the initial one if none was received. |
| `Scenarios.LoneInvaderTurnsAtLeftEdge` | src/invader.rs:51-74 | A lone invader at (0, 5) heading left turns right and moves to (0, 6) on a due tick. |
| `Scenarios.ThirdShotRefused` | src/player.rs:32-40 | From a new ship, two shots succeed at (20, 18) and a third is refused while both are held. |
| `Scenarios.ShotOnInvaderExplodes` | src/player.rs:48-59 | A flying shot on an invader's cell kills it: the hit is reported, the army empties, and the shot is exploding rather than removed. |
| `Players.KilledOnlyOnce` | src/player.rs:50-55 | Because shots take their turns in order, an invader that appears once in the army is killed at most once. After one shot has killed it, any later shot that is not exploding and aims at the same cell misses. |
| `Scenarios.EarlierShotKills` | src/player.rs:50-55 | Of two flying shots on the cell of a lone invader, the earlier one in the list kills it and explodes. The later one misses and flies on. |
| `Scenarios.EmptyArmyWinsWithoutLosing` | src/invader.rs:96-102 | An empty army counts as won and not as having reached the bottom. |

## Left out

- `Invaders::draw` (src/invader.rs:105-118) picks a glyph by a floating-point ratio of time left to duration. Floating point is outside this model.
- `Player::draw` (src/player.rs:62-68) depends on `Shot::draw`, and src/shot.rs is not part of this model.
- Shot behaviour (src/shot.rs) is not part of this model. Flight, the explosion timer and `dead()` are parameters, so the cap of two shots is proved about held shots, not about "live" shots.
- The contents of `new_frame` (src/frame.rs) are not part of this model. Frames are any sequence of columns of glyph strings. The model does not need the 40 by 20 shape, only that the frames rendered one after another share a shape.
- `Timer::update(delta)` internals are not modelled, because the library is not shown. For the same reason, the claim that a zero `delta` never makes the formation move is not modelled.
- Terminal I/O in src/render.rs is not modelled. This covers colours, `MoveTo` encoding, `print!` and `flush`. `Output.clear` stands for the three prelude commands.
- src/main.rs is not modelled, apart from `Formation.Run`, `Rendering.Replay` and `Rendering.RenderThread`. The missing parts are terminal raw mode, keyboard polling, audio cues, the channel and thread hand-off, and `sleep`. They are I/O and concurrency.
- Unsigned integer widths are not modelled except where they matter. Positions are unbounded naturals, so `invader.y += 1` cannot wrap, and the lossless `as u64` cast at src/invader.rs:71 is not written out.
- `Rendering.Render`: requires every cell of the current frame to exist in the last frame. render.rs:19 reads `last_frame[x][y]` before it tests `force`, so a last frame smaller than the current one makes the source panic, and that path is not modelled. Every call in src/main.rs passes frames built by `new_frame`, which all have one shape.
- `Formation.Run`: does not interleave the kills of `detect_hits` between ticks. It covers formation movement only.
