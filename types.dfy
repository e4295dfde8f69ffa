/**
  The game's fixed configuration and record types: board constants, the
  seven-entry piece catalog, a block (called Grid in the game logic) and the
  game state that every action replaces wholesale.
*/
module Types {
  import opened Geometry

  // Board and timing constants.
  const TickRateIncrease: int := 5
  const GridWidth: int := 10
  const GridHeight: int := 20
  const StartX: int := 4
  const StartY: int := 1

  /** The colour of a block, one per catalog entry (kept opaque). */
  datatype Color = Yellow | Blue | Pink | DarkBlue | Orange | Green | Red

  /** One occupied cell, carrying the rotation and kick flags of its piece. */
  datatype Grid = Grid(position: Pos, color: Color, rotatable: bool, wallKick: bool, floorKick: bool)

  /** A catalog entry: four (dx, dy) offsets and the piece's flags. */
  datatype ShapeEntry = ShapeEntry(shape: seq<(int, int)>, rotatable: bool, wallKick: bool, floorKick: bool)

  /** The whole game state; actions return a modified copy. */
  datatype State = State(
    level: int,
    score: int,
    highscore: int,
    createTetro: bool,
    tickRate: int,
    clearline: int,
    powerUp: int,
    tetromino: seq<Grid>,
    previewTetro: seq<Grid>,
    hardDropTetro: seq<Grid>,
    blocks: seq<Grid>,
    gameEnd: bool)

  /** The seven pieces O, I, L, J, T, S, Z, in catalog order 1..7. */
  const TetrominoShapes: seq<ShapeEntry> := [
    ShapeEntry([(0, 0), (1, 0), (0, 1), (1, 1)], false, false, false),  // O
    ShapeEntry([(0, 0), (1, 0), (2, 0), (3, 0)], true, true, true),     // I
    ShapeEntry([(0, 1), (1, 1), (2, 1), (2, 0)], true, true, false),    // L
    ShapeEntry([(2, 1), (1, 1), (0, 1), (0, 0)], true, true, false),    // J
    ShapeEntry([(0, 1), (1, 1), (2, 1), (1, 0)], true, true, true),     // T
    ShapeEntry([(0, 1), (1, 1), (1, 0), (2, 0)], true, true, false),    // S
    ShapeEntry([(0, 0), (1, 0), (1, 1), (2, 1)], true, true, false)     // Z
  ]

  /** The colour list, indexed by catalog number 1..7. */
  function ColorOf(num: int): (c: Color)
    requires 1 <= num <= 7
    ensures num == 1 <==> c == Yellow
  {
    [Yellow, Blue, Pink, DarkBlue, Orange, Green, Red][num - 1]
  }

  /** Distinct catalog numbers get distinct colours. */
  lemma ColorOfInjective(m: int, n: int)
    requires 1 <= m <= 7 && 1 <= n <= 7 && m != n
    ensures ColorOf(m) != ColorOf(n)
  {
  }

  /** Board and spawn constants. */
  lemma ConstantValues()
    ensures GridWidth == 10 && GridHeight == 20
    ensures StartX == 4 && StartY == 1 && TickRateIncrease == 5
  {
  }

  /** Seven entries, each of exactly four pairwise-distinct offsets. */
  lemma CatalogShapesHaveFourDistinctCells()
    ensures |TetrominoShapes| == 7
    ensures forall n :: 0 <= n < 7 ==> |TetrominoShapes[n].shape| == 4
    ensures forall n, i, j :: 0 <= n < 7 && 0 <= i < j < 4 ==>
              TetrominoShapes[n].shape[i] != TetrominoShapes[n].shape[j]
  {
  }

  /** Every offset lies in the 4-by-2 box dx in 0..3, dy in 0..1. */
  lemma CatalogOffsetsInBox()
    ensures forall n, i :: 0 <= n < 7 && 0 <= i < 4 ==>
              0 <= TetrominoShapes[n].shape[i].0 <= 3 && 0 <= TetrominoShapes[n].shape[i].1 <= 1
  {
  }

  /**
    O (entry 1) is the only non-rotatable piece and has no kick; wall kicks
    go with rotatability; only I (2) and T (5) have floor kicks.
  */
  lemma CatalogFlags()
    ensures forall n :: 0 <= n < 7 ==> (!TetrominoShapes[n].rotatable <==> n == 0)
    ensures !TetrominoShapes[0].wallKick && !TetrominoShapes[0].floorKick
    ensures forall n :: 0 <= n < 7 ==> TetrominoShapes[n].wallKick == TetrominoShapes[n].rotatable
    ensures forall n :: 0 <= n < 7 ==> (TetrominoShapes[n].floorKick <==> n == 1 || n == 4)
  {
  }

  /** The second offset of every entry, the rotation pivot, has dx = 1. */
  lemma CatalogPivotColumn()
    ensures forall n :: 0 <= n < 7 ==> TetrominoShapes[n].shape[1].0 == 1
  {
  }
}
