# Tetris rules engine in Dafny

This project models the game-rules engine of a falling-block puzzle game (a
Tetris clone) and proves properties of it. The engine is a pure reducer: each
action (spawn a piece, tick, move, hard drop, rotate with wall and floor kicks,
restart, power-up) maps a game state to a new one. The model covers that
reducer and everything it rests on:

- the integer geometry of positions;
- the linear congruential generator and its scaling to piece numbers;
- the seven-piece catalog and the board constants;
- the three collision predicates;
- the drop scan;
- full-row detection, row removal and scoring.

Each part is modelled with datatypes and functions, the same form as the
original code.

Modules, leaves first:

- `Geometry`: `Pos`, `Add`, `Rotate`.
- `Rng`: `Hash`, `Scale`, and the truncating remainder the original `%` uses.
- `Types`: constants, colours, the piece catalog, `Grid` (one block), `State`.
- `Pieces`: piece creation, translation (`MoveTetro`), kick candidates,
  rotation of a whole piece.
- `Collision`: `CollisionX`, `CollisionY`, `CollidesWithOtherBlocks`, and the
  first-fit search over kicks.
- `Rows`: `RemovingRow`, `FindFullRows`, `ScoreForClear`, `RemoveFullRow`.
- `Engine`: the drop scan, `HandleCollision`, the shared step, the seven
  actions, `ReduceState`, and the state invariant.
- `Driver`: the fold of the reducer over a sequence of actions.

Behaviour that is kept exactly as the code has it:

- The boundary tests compare `x - 1` and `y - 1`. The legal cells are
  therefore x in 1..10 and y in 2..20 (`Collision.LegalCells`).
- `RemoveFullRow` computes the new level from clearline *before* adding the
  rows cleared by the same call. So the level lags: the invariant proved is
  `level <= clearline / 10`, not equality.
- Game over is not absorbing. Only Move and PowerUp refuse to act on a
  finished game; Restart reads the flag only to pick the high score. Tick,
  Rotate, Movemax and Tetro still change a finished game
  (`Engine.TickIgnoresGameEnd`).
- Tetro appends the old piece to the settled blocks without an overlap check.
  So "settled blocks never overlap" is not an invariant of the model.
- `Scale(2^31 - 1)` is 8, outside the catalog's 1..7. The exact generator
  reaches that hash from seed 230538014 (`Rng.ScaleLeavesCatalogAtTop`).

## Model

| member | source | states |
|---|---|---|
| `Geometry.Add` | src/util.ts:8 | the result is `a` translated by `b`, component-wise |
| `Geometry.AddInverse` | src/util.ts:8 | translating by `b` and then by `-b` gives back the position |
| `Geometry.Rotate` | src/util.ts:9-13 | the pivot is a fixed point of rotation, for every direction |
| `Geometry.RotateIsQuarterTurn` | src/util.ts:9-13 | the turned offset from the pivot is perpendicular to the original one, and their cross product is direction times the squared distance, so direction 1 and -1 are opposite quarter turns |
| `Geometry.RotateInverse` | src/util.ts:9-13 | a turn by 1 then -1, or by -1 then 1, about the same pivot restores the point |
| `Geometry.RotateTwiceIsHalfTurn` | src/util.ts:9-13 | two quarter turns in one direction reflect the point through the pivot |
| `Geometry.RotateFourTimes` | src/util.ts:9-13 | four quarter turns in one direction restore the point |
| `Geometry.RotateScalesDistance` | src/util.ts:9-13 | rotation multiplies the squared distance to the pivot by direction², so it is preserved for direction 1 and -1 |
| `Rng.TruncRem` | src/util.ts:31 | the `%` of the generator is a remainder of the dividend (their difference is a multiple of the modulus), with the sign of the dividend and magnitude below the modulus |
| `Rng.Hash` | src/util.ts:22-31 | for a seed >= 0 the next hash lies in [0, 2^31) |
| `Rng.HashOfZero` | src/util.ts:22-31 | the hash of seed 0 is 12345 |
| `Rng.Scale` | src/util.ts:36-40 | for 0 <= h < 2^31 - 1 the piece number is in 1..7, and for h = 2^31 - 1 it is 8 |
| `Rng.ScaleMonotone` | src/util.ts:36-40 | scaling never decreases as the hash grows |
| `Rng.ScaleLeavesCatalogAtTop` | src/util.ts:36-40 | the exact generator produces 2^31 - 1 from seed 230538014, and that hash scales to 8 |
| `Types.ColorOf` | src/state.ts:24-25 | piece numbers 1..7 map to the colour list, with number 1 exactly yellow |
| `Types.ColorOfInjective` | src/state.ts:24-25 | distinct piece numbers have distinct colours |
| `Types.ConstantValues` | src/types.ts:14-21 | the board is 10 by 20, the spawn point is (4, 1), and the tick-rate step is 5 |
| `Types.CatalogShapesHaveFourDistinctCells` | src/types.ts:65-86 | the catalog has seven entries, each of four pairwise-distinct offsets |
| `Types.CatalogOffsetsInBox` | src/types.ts:67-85 | every offset has dx in 0..3 and dy in 0..1 |
| `Types.CatalogFlags` | src/types.ts:67-85 | only entry 1 (O) is non-rotatable and it has no kicks; wallKick equals rotatable; only I and T floor-kick |
| `Types.CatalogPivotColumn` | src/types.ts:67-85 | the second offset of every entry, the rotation pivot, has dx = 1 |
| `Pieces.MoveTetro` | src/state.ts:235-242 | each block moves by the amount on the movement's axis only; colour and flags are unchanged |
| `Pieces.MoveDownCompose` | src/state.ts:235-242 | moving down by a and then by b is moving down by a + b |
| `Pieces.MoveByZero` | src/state.ts:235-242 | a zero movement is the identity |
| `Pieces.WallKicks` | src/state.ts:9-13 | four candidates, shifted by +1, +2, -1, -2 columns in that order, with rows, colours and flags kept |
| `Pieces.FloorKicks` | src/state.ts:16-18 | two candidates, lifted by 1 and then by 2 rows, with columns, colours and flags kept |
| `Pieces.RotateTetro` | src/state.ts:161-162 | every block is rotated about the pivot; colour and flags are unchanged |
| `Pieces.RotateKeepsPivotBlock` | src/state.ts:160-162 | rotating about the second block's position leaves that block unchanged |
| `Pieces.RotateTetroInverse` | src/state.ts:161-162 | a piece turned by d and then by -d about the same pivot is restored, for d = 1 or -1 |
| `Pieces.CreateTetromino` | src/state.ts:21-34 | four blocks on distinct cells within the 4-by-2 box at the origin, block i on the origin plus the entry's i-th offset, carrying the entry's colour and flags, with the pivot one column right of the origin |
| `Pieces.OnlyOPieceIsFixed` | src/state.ts:21-34 | a created piece has a non-rotatable block exactly when it is piece 1 |
| `Collision.LegalCells` | src/state.ts:315-333 | the x - 1 / y - 1 boundary tests accept exactly x in 1..10 and y in 2..20 |
| `Collision.OverlapIffSharedCell` | src/state.ts:342-349 | an overlap holds iff the set of the piece's cells meets the set of settled cells |
| `Collision.CollisionXIff` | src/state.ts:315-319 | horizontal collision holds iff the piece is non-empty and a block is outside columns 1..10 or overlaps a settled block |
| `Collision.CollisionYIff` | src/state.ts:328-333 | vertical collision holds iff the piece is non-empty and a block is outside rows 2..20 or overlaps a settled block |
| `Collision.FitsOnBoard` | src/state.ts:315-349 | a non-empty piece that collides on neither axis lies on legal cells and shares no cell with a settled block |
| `Collision.FirstFit` | src/state.ts:172-178 | the search returns the first candidate that collides on neither axis, or reports that none does |
| `Rows.RemovingRow` | src/state.ts:263-269 | the result has the blocks minus exactly those lying on a removed row |
| `Rows.RemovingRowAppend` | src/state.ts:263-269 | removal acts block by block in order, so survivors keep their relative order |
| `Rows.RemovingRowContents` | src/state.ts:263-269 | a block is in the result iff it is a block off the removed rows, moved down by the number of removed rows greater than its y, with x, colour and flags kept |
| `Rows.RemovingNoRows` | src/state.ts:263-269 | removing an empty list of rows is the identity |
| `Rows.FullRowsFrom` | src/state.ts:279-283 | the scan from a row lists, strictly ascending, exactly the rows up to 20 that hold 10 blocks |
| `Rows.FindFullRows` | src/state.ts:279-283 | row r is listed iff r is in 1..20 and exactly 10 blocks lie on it; the list is strictly ascending |
| `Rows.ScoreForClear` | src/state.ts:287-293 | 1, 2, 3, 4 cleared rows score 40, 100, 300, 1200; any other count scores nothing |
| `Rows.RemoveFullRow` | src/state.ts:277-305 | full rows removed, clearline grows by their count, score by the table, level becomes old clearline / 10, powerUp +1 iff the level changed; nothing else changes |
| `Rows.RemoveFullRowDropsFullRows` | src/state.ts:277-305 | exactly 10 blocks per full row disappear, and with no full row the blocks, score and clearline are unchanged |
| `Engine.InitialState` | src/state.ts:37-50 | piece O active and piece I in preview at (4, 1), five power-ups, everything else zero or empty |
| `Engine.MoveDownAmount` | src/state.ts:251-254 | for a non-empty piece, d >= 0 with no vertical collision for each shift 1..d and a collision at d + 1 |
| `Engine.HandleCollision` | src/state.ts:359-367 | game over only for a y-step of a piece touching y <= 1 onto settled blocks; a colliding x-step is undone; a colliding y-step requests a new piece without moving; otherwise the piece moves; only gameEnd, createTetro and tetromino change |
| `Engine.Step` | src/state.ts:222-226 | game over as in HandleCollision; an x-step never sets gameEnd or createTetro; the piece moves by exactly the movement when the step neither tops out nor collides on its own axis, and stays otherwise; full rows of the settled blocks as they were before the step are cleared and scored; a y-step that lands without topping out requests the next piece; the level becomes the old clearline / 10 and powerUp grows by 1 iff that changes the level; high score, countdown and previews are kept |
| `Engine.ApplyTetro` | src/state.ts:75-85 | a no-op unless a piece was requested; otherwise the preview becomes active, a fresh piece n at (4, 1) becomes the preview, the settled blocks grow by exactly the old piece, and the request is cleared |
| `Engine.ResetTickRate` | src/state.ts:103 | the reset countdown is 5 - level up to level 5, so in 0..5 for level >= 0, and 0 above level 5 |
| `Engine.ApplyTick` | src/state.ts:95-109 | the landing preview is the pre-step piece dropped by the scan distance, resting on a collision; countdown 0 means one step down and a reset, otherwise a decrement; the countdown stays in 0..5 |
| `Engine.ApplyMove` | src/state.ts:125 | the state is unchanged after game over; otherwise one step |
| `Engine.ApplyMovemax` | src/state.ts:136-140 | the piece drops exactly the scan distance d to a resting place; score gains d + 1 plus the row-clear points; full rows are removed, clearline grows by their count, the level becomes old clearline / 10 and powerUp grows by 1 iff that changes the level |
| `Engine.Rotated` | src/state.ts:160-162 | every block is rotated about the second block's position, which therefore stays in place; the length is kept |
| `Engine.ApplyRotate` | src/state.ts:156-182 | no-op with a non-rotatable block; otherwise either unchanged or only the piece changes, to a candidate colliding on neither axis that is the rotation or one of its kicks; a fitting plain rotation is taken |
| `Engine.RotateFloorKicks` | src/state.ts:170-174 | a vertically colliding floor-kicker tries a lift by 1 then by 2, and otherwise stays unchanged with no fall-through to wall kicks |
| `Engine.RotateWallKicks` | src/state.ts:176-179 | otherwise a horizontally colliding wall-kicker takes the first fitting shift among +1, +2, -1, -2, or stays unchanged |
| `Engine.RotateBlockedWithoutFloorKick` | src/state.ts:171-181 | a rotation colliding only vertically, on a piece without floor kicks, leaves the state unchanged |
| `Engine.RotateBlockedWithoutWallKick` | src/state.ts:176-181 | a rotation colliding horizontally, on a piece without wall kicks and outside the floor-kick case, leaves the state unchanged |
| `Engine.RotateOPieceIsNoOp` | src/state.ts:158 | rotating an O piece never changes the state, in either direction |
| `Engine.ApplyRestart` | src/state.ts:192-194 | the initial state with high score max(score, highscore) after game over, otherwise with the old high score |
| `Engine.ApplyPowerUp` | src/state.ts:204-210 | with powerUp != 0 and the game running, the bottom row is removed and one charge is used; otherwise no change; score, level and clearline are never touched |
| `Engine.PowerUpRemovesBottomRow` | src/state.ts:207 | exactly the blocks on row 20 go; blocks above it move down one row and blocks below it stay |
| `Engine.ReduceState` | src/state.ts:60 | only Restart can change the high score and it never lowers it; Move and PowerUp leave a finished game unchanged |
| `Engine.InitialStateInvariant` | src/state.ts:37-50 | the initial state satisfies the state invariant |
| `Engine.ReducePreservesInvariant` | src/state.ts:60 | every action with a catalog number in 1..7 is defined on, and preserves, the invariant: four-block active and preview pieces, countdown in 0..5, 0 <= level <= clearline / 10, non-negative counters |
| `Engine.TickIgnoresGameEnd` | src/state.ts:95-109 | after game over, with a positive countdown, Tick still changes the state (the countdown runs) |
| `Engine.FirstTickDropsPiece` | src/state.ts:95-109 | from the initial state the first Tick moves the piece down one row, resets the countdown to 5 and does not end the game |
| `Driver.Run` | src/main.ts:29 | folding the reducer over valid actions keeps the invariant and never lowers the high score |
| `Driver.Play` | src/main.ts:29 | every game started from the initial state satisfies the invariant |
| `Driver.RunAppend` | src/main.ts:29 | running a then b is running a + b |
| `Driver.RunKeepsHighscoreWithoutRestart` | src/main.ts:29 | without Restart, the high score is constant over a run |

## Left out

- Rendering (src/view.ts) is not part of this model. It has no game logic.
- The keyboard and timer streams (src/observable.ts) are not part of this
  model. They are event plumbing. Actions arrive as a sequence, and `Driver.Run`
  folds the reducer over it. The piece number of a Tetro action is a parameter.
  It is not drawn from `Hash`/`Scale` here.
- The replay code and the show/hide of the game-over overlay (src/main.ts) are
  not modelled. Only the fold of the reducer is.
- Viewport sizes, block pixel sizes, the millisecond tick constant, and
  the key and event types are view-only. They are not modelled.
- Colours are a seven-valued datatype indexed by piece number. They are not CSS
  strings.
- `Rng.Hash` works on exact integers. The original multiplies in
  double-precision floating point, and `a * seed` exceeds 2^53 once the seed is
  above about 8.2 million. So from its third value on, the original sequence
  differs from the exact one. That floating-point rounding is not modelled.
- `Rng.Scale` is `floor(7 * h / (2^31 - 1)) + 1` on integers. This matches the
  floating-point code for 0 <= h <= 2^31 - 1, but not for arbitrary doubles.
- A Tetro action with a number outside 1..7 makes the original throw when it
  looks up the catalog. The model treats this as a precondition
  (`Engine.Applicable`), not a modelled error path.
- An empty piece makes the drop scan recurse forever. A piece of fewer than two
  blocks makes Rotate index past the end. Both are preconditions of Tick,
  Movemax and Rotate. The proved invariant keeps the active piece at four
  blocks.
