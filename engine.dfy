/**
  The game's state machine: the drop scan, collision handling, the shared
  one-cell step, the seven actions and the reducer that dispatches them,
  with the state invariant every action keeps.
*/
module Engine {
  import G = Geometry
  import opened Types
  import opened Pieces
  import opened Collision
  import opened Rows

  /** The state a game starts in: piece O active, piece I in preview, five power-ups. */
  function InitialState(): (r: State)
    ensures r.tetromino == CreateTetromino(G.Pos(StartX, StartY), 1)
    ensures r.previewTetro == CreateTetromino(G.Pos(StartX, StartY), 2)
    ensures r.blocks == [] && r.hardDropTetro == [] && !r.gameEnd && !r.createTetro
    ensures r.level == 0 && r.score == 0 && r.highscore == 0 && r.tickRate == 0
    ensures r.clearline == 0 && r.powerUp == 5
  {
    State(
      level := 0,
      score := 0,
      highscore := 0,
      createTetro := false,
      tickRate := 0,
      clearline := 0,
      powerUp := 5,
      tetromino := CreateTetromino(G.Pos(StartX, StartY), 1),
      previewTetro := CreateTetromino(G.Pos(StartX, StartY), 2),
      hardDropTetro := [],
      blocks := [],
      gameEnd := false)
  }

  /**
    The drop scan (moveDownAmount): the number d of rows the piece can fall
    without a vertical collision. Every shift by 1..d is collision-free and
    the shift by d + 1 collides. The scan stops because a vertical collision
    occurs at the latest once the first block passes row GridHeight.
  */
  function MoveDownAmount(s: State, t: seq<Grid>): (d: nat)
    requires |t| > 0
    ensures forall k :: 1 <= k <= d ==> !CollisionY(s, MoveTetro(t, Movement(Y, k)))
    ensures CollisionY(s, MoveTetro(t, Movement(Y, d + 1)))
    decreases GridHeight + 1 - t[0].position.y
  {
    var next := MoveTetro(t, Movement(Y, 1));
    if CollisionY(s, next) then 0
    else
      assert !(OutsideY(next[0].position) || CollidesWithOtherBlocks(s, next));
      var d := MoveDownAmount(s, next);
      DropScanStep(s, t, d);
      1 + d
  }

  /** The drop-scan facts for the piece one row down carry over to the piece itself. */
  lemma DropScanStep(s: State, t: seq<Grid>, d: nat)
    requires !CollisionY(s, MoveTetro(t, Movement(Y, 1)))
    requires forall k :: 1 <= k <= d ==> !CollisionY(s, MoveTetro(MoveTetro(t, Movement(Y, 1)), Movement(Y, k)))
    requires CollisionY(s, MoveTetro(MoveTetro(t, Movement(Y, 1)), Movement(Y, d + 1)))
    ensures forall k :: 1 <= k <= d + 1 ==> !CollisionY(s, MoveTetro(t, Movement(Y, k)))
    ensures CollisionY(s, MoveTetro(t, Movement(Y, d + 2)))
  {
    MoveDownCompose(t, 1, d + 1);
    forall k | 1 <= k <= d + 1 ensures !CollisionY(s, MoveTetro(t, Movement(Y, k))) {
      if k > 1 {
        MoveDownCompose(t, 1, k - 1);
      }
    }
  }

  /** Any block of the piece before the move sits at y <= 1. */
  predicate AtTop(t: seq<Grid>)
  {
    exists i :: 0 <= i < |t| && t[i].position.y <= 1
  }

  /**
    The game-over test of a step: a vertical step of a piece that still
    touches the top row onto settled blocks.
  */
  predicate ToppedOut(s: State, newTetromino: seq<Grid>, m: Movement)
  {
    m.axis == Y && AtTop(s.tetromino) && CollidesWithOtherBlocks(s, newTetromino)
  }

  /**
    The outcome of moving the piece to `newTetromino` (handleCollision), in
    order of priority: game over; an x-step that collides is undone; a
    y-step that collides requests the next piece; otherwise the move is kept.
  */
  function HandleCollision(s: State, newTetromino: seq<Grid>, m: Movement): (r: State)
    ensures r == s.(gameEnd := r.gameEnd, createTetro := r.createTetro, tetromino := r.tetromino)
    ensures r.gameEnd == (s.gameEnd || ToppedOut(s, newTetromino, m))
    ensures ToppedOut(s, newTetromino, m) ==> r == s.(gameEnd := true)
    ensures m.axis == X ==> r.createTetro == s.createTetro
    ensures m.axis == X && CollisionX(s, newTetromino) ==> r == s
    ensures m.axis == X && !CollisionX(s, newTetromino) ==> r == s.(tetromino := MoveTetro(s.tetromino, m))
    ensures m.axis == Y && !ToppedOut(s, newTetromino, m) && CollisionY(s, newTetromino) ==>
              r == s.(createTetro := true)
    ensures m.axis == Y && !CollisionY(s, newTetromino) ==> r == s.(tetromino := MoveTetro(s.tetromino, m))
  {
    if ToppedOut(s, newTetromino, m) then s.(gameEnd := true)
    else if CollisionX(s, newTetromino) && m.axis == X then s
    else if CollisionY(s, newTetromino) && m.axis == Y then s.(createTetro := true)
    else s.(tetromino := MoveTetro(s.tetromino, m))
  }

  /**
    One movement of the active piece followed by row clearing (the `tick`
    helper shared by Move and Tick).
  */
  function Step(s: State, m: Movement): (r: State)
    ensures r.gameEnd == (s.gameEnd || ToppedOut(s, MoveTetro(s.tetromino, m), m))
    ensures m.axis == X ==> r.createTetro == s.createTetro && r.gameEnd == s.gameEnd
    ensures r.highscore == s.highscore && r.tickRate == s.tickRate
    ensures r.previewTetro == s.previewTetro && r.hardDropTetro == s.hardDropTetro
    ensures s.clearline >= 0 ==> 0 <= r.level <= r.clearline / 10
    ensures r.score >= s.score && r.powerUp >= s.powerUp
    // the piece moves exactly when the step neither tops out nor collides on its own axis
    ensures var n := MoveTetro(s.tetromino, m);
            r.tetromino == (if !ToppedOut(s, n, m) && !(m.axis == X && CollisionX(s, n)) && !(m.axis == Y && CollisionY(s, n))
                            then n else s.tetromino)
    // the row clear sees the settled blocks as they were before the step
    ensures var rows := FindFullRows(s.blocks);
            r.blocks == RemovingRow(rows, s.blocks) && r.clearline == s.clearline + |rows| &&
            r.score == s.score + ScoreForClear(|rows|)
    // a y-step that lands without topping out requests the next piece
    ensures var n := MoveTetro(s.tetromino, m);
            r.createTetro == (s.createTetro || (m.axis == Y && !ToppedOut(s, n, m) && CollisionY(s, n)))
    // the level and power-up follow the row clear, from the clearline before the step
    ensures r.level == s.clearline / 10
    ensures r.powerUp == (if s.level == s.clearline / 10 then s.powerUp else s.powerUp + 1)
  {
    var newTetromino := MoveTetro(s.tetromino, m);
    RemoveFullRow(HandleCollision(s, newTetromino, m))
  }

  /**
    Tetro(number): when a new piece was requested, the preview becomes the
    active piece, a fresh piece `number` is spawned at (StartX, StartY) as
    the preview, and the old active piece joins the settled blocks (without
    any overlap check).
  */
  function ApplyTetro(s: State, number: int): (r: State)
    requires !s.createTetro || 1 <= number <= 7
    ensures !s.createTetro ==> r == s
    ensures s.createTetro ==>
              && r == s.(createTetro := false, tetromino := s.previewTetro,
                         previewTetro := r.previewTetro, blocks := r.blocks)
              && r.previewTetro == CreateTetromino(G.Pos(StartX, StartY), number)
              && r.blocks == s.blocks + s.tetromino
  {
    if !s.createTetro then s
    else s.(createTetro := false,
            tetromino := s.previewTetro,
            previewTetro := CreateTetromino(G.Pos(StartX, StartY), number),
            blocks := s.blocks + s.tetromino)
  }

  /** The countdown value a forced drop resets to: 5 - level, or 0 above level 5. */
  function ResetTickRate(level: int): (n: int)
    ensures level >= 0 ==> 0 <= n <= TickRateIncrease
    ensures level > 5 ==> n == 0
    ensures level <= 5 ==> n == TickRateIncrease - level
  {
    if level > 5 then 0 else TickRateIncrease - level
  }

  /**
    Tick: refreshes the landing preview from the piece before the step;
    when the countdown is 0 the piece takes one step down and the countdown
    restarts, otherwise only the countdown decreases. Game over is not
    consulted.
  */
  function ApplyTick(s: State): (r: State)
    requires |s.tetromino| > 0
    ensures r.hardDropTetro == MoveTetro(s.tetromino, Movement(Y, MoveDownAmount(s, s.tetromino)))
    ensures CollisionY(s, MoveTetro(r.hardDropTetro, Movement(Y, 1)))
    ensures s.tickRate == 0 ==>
              r == Step(s, Movement(Y, 1)).(tickRate := ResetTickRate(s.level), hardDropTetro := r.hardDropTetro)
    ensures s.tickRate != 0 ==> r == s.(tickRate := s.tickRate - 1, hardDropTetro := r.hardDropTetro)
    ensures s.level >= 0 && 0 <= s.tickRate <= TickRateIncrease ==> 0 <= r.tickRate <= TickRateIncrease
  {
    var hardDropAmount := MoveDownAmount(s, s.tetromino);
    MoveDownCompose(s.tetromino, hardDropAmount, 1);
    var preview := MoveTetro(s.tetromino, Movement(Y, hardDropAmount));
    if s.tickRate == 0 then
      Step(s, Movement(Y, 1)).(tickRate := ResetTickRate(s.level), hardDropTetro := preview)
    else
      s.(tickRate := s.tickRate - 1, hardDropTetro := preview)
  }

  /** Move(m): one step, refused once the game has ended. */
  function ApplyMove(s: State, m: Movement): (r: State)
    ensures s.gameEnd ==> r == s
    ensures !s.gameEnd ==> r == Step(s, m)
  {
    if s.gameEnd then s else Step(s, m)
  }

  /**
    Movemax (hard drop): the piece falls the full drop-scan distance d, to a
    cell where one more row collides, the score gains d + 1, and full rows
    are cleared. Game over is not consulted.
  */
  function ApplyMovemax(s: State): (r: State)
    requires |s.tetromino| > 0
    ensures var d := MoveDownAmount(s, s.tetromino);
            && r.tetromino == MoveTetro(s.tetromino, Movement(Y, d))
            && r.score == s.score + d + 1 + ScoreForClear(|FindFullRows(s.blocks)|)
    ensures CollisionY(s, MoveTetro(r.tetromino, Movement(Y, 1)))
    ensures r.blocks == RemovingRow(FindFullRows(s.blocks), s.blocks)
    ensures r.gameEnd == s.gameEnd && r.createTetro == s.createTetro && r.highscore == s.highscore
    ensures r.tickRate == s.tickRate && r.previewTetro == s.previewTetro && r.hardDropTetro == s.hardDropTetro
    ensures r.clearline == s.clearline + |FindFullRows(s.blocks)| && r.level == s.clearline / 10
    ensures r.powerUp == (if s.level == s.clearline / 10 then s.powerUp else s.powerUp + 1)
  {
    var moveAmount := MoveDownAmount(s, s.tetromino);
    MoveDownCompose(s.tetromino, moveAmount, 1);
    var newTetromino := MoveTetro(s.tetromino, Movement(Y, moveAmount));
    RemoveFullRow(s.(score := s.score + moveAmount + 1, tetromino := newTetromino))
  }

  /** Some block of the piece is marked non-rotatable. */
  predicate HasFixedBlock(t: seq<Grid>)
  {
    exists i :: 0 <= i < |t| && !t[i].rotatable
  }

  /** The piece rotated about its second block. */
  function Rotated(t: seq<Grid>, direction: int): (r: seq<Grid>)
    requires |t| >= 2
    ensures |r| == |t| && r[1] == t[1]
    ensures r == RotateTetro(t, t[1].position, direction)
  {
    RotateKeepsPivotBlock(t, direction);
    RotateTetro(t, t[1].position, direction)
  }

  /**
    Rotate(direction): a piece with a non-rotatable block stays put; the
    plain rotation is taken if it fits; a rotation that collides vertically
    tries only the floor kicks when the piece has them; otherwise one that
    collides horizontally tries the wall kicks when the piece has them.
  */
  function ApplyRotate(s: State, direction: int): (r: State)
    requires |s.tetromino| >= 2 || HasFixedBlock(s.tetromino)
    ensures HasFixedBlock(s.tetromino) ==> r == s
    ensures r == s || (r == s.(tetromino := r.tetromino) && Fits(s, r.tetromino))
    ensures r != s ==>
              var rot := Rotated(s.tetromino, direction);
              r.tetromino == rot || r.tetromino in FloorKicks(rot) || r.tetromino in WallKicks(rot)
    ensures |s.tetromino| >= 2 && !HasFixedBlock(s.tetromino) && Fits(s, Rotated(s.tetromino, direction)) ==>
              r == s.(tetromino := Rotated(s.tetromino, direction))
  {
    if HasFixedBlock(s.tetromino) then s
    else
      var newTetromino := Rotated(s.tetromino, direction);
      var collX := CollisionX(s, newTetromino);
      var collY := CollisionY(s, newTetromino);
      if !collX && !collY then s.(tetromino := newTetromino)
      else if collY && newTetromino[1].floorKick then
        var kicks := FloorKicks(newTetromino);
        var k := FirstFit(s, kicks);
        if k < |kicks| then s.(tetromino := kicks[k]) else s
      else if collX && newTetromino[1].wallKick then
        var kicks := WallKicks(newTetromino);
        var k := FirstFit(s, kicks);
        if k < |kicks| then s.(tetromino := kicks[k]) else s
      else s
  }

  /**
    A rotation that collides vertically on a floor-kicking piece tries the
    lifts by 1 and by 2, in that order, and nothing else: when neither fits
    the state is unchanged even if a wall kick would fit.
  */
  lemma RotateFloorKicks(s: State, direction: int)
    requires |s.tetromino| >= 2 && !HasFixedBlock(s.tetromino)
    requires CollisionY(s, Rotated(s.tetromino, direction)) && s.tetromino[1].floorKick
    ensures var kicks := FloorKicks(Rotated(s.tetromino, direction));
            ApplyRotate(s, direction) ==
              if Fits(s, kicks[0]) then s.(tetromino := kicks[0])
              else if Fits(s, kicks[1]) then s.(tetromino := kicks[1])
              else s
  {
  }

  /**
    Otherwise a rotation that collides horizontally on a wall-kicking piece
    takes the first fitting shift among right 1, right 2, left 1, left 2.
  */
  lemma RotateWallKicks(s: State, direction: int)
    requires |s.tetromino| >= 2 && !HasFixedBlock(s.tetromino)
    requires var rot := Rotated(s.tetromino, direction);
             CollisionX(s, rot) && !(CollisionY(s, rot) && s.tetromino[1].floorKick) && s.tetromino[1].wallKick
    ensures var kicks := WallKicks(Rotated(s.tetromino, direction));
            forall k :: 0 <= k < 4 && Fits(s, kicks[k]) && (forall j :: 0 <= j < k ==> !Fits(s, kicks[j])) ==>
              ApplyRotate(s, direction) == s.(tetromino := kicks[k])
    ensures var kicks := WallKicks(Rotated(s.tetromino, direction));
            (forall k :: 0 <= k < 4 ==> !Fits(s, kicks[k])) ==> ApplyRotate(s, direction) == s
  {
    var kicks := WallKicks(Rotated(s.tetromino, direction));
    var first := FirstFit(s, kicks);
    forall k | 0 <= k < 4 && Fits(s, kicks[k]) && (forall j :: 0 <= j < k ==> !Fits(s, kicks[j]))
      ensures ApplyRotate(s, direction) == s.(tetromino := kicks[k])
    {
      assert first == k;
    }
  }

  /**
    A rotation that collides only vertically, on a piece without floor kicks,
    is refused: the state is unchanged.
  */
  lemma RotateBlockedWithoutFloorKick(s: State, direction: int)
    requires |s.tetromino| >= 2 && !HasFixedBlock(s.tetromino) && !s.tetromino[1].floorKick
    ensures var rot := Rotated(s.tetromino, direction);
            CollisionY(s, rot) && !CollisionX(s, rot) ==> ApplyRotate(s, direction) == s
  {
  }

  /**
    A rotation that collides horizontally, on a piece without wall kicks and
    outside the floor-kick case, is refused: the state is unchanged. (No
    catalog piece reaches this case, since wallKick equals rotatable there.)
  */
  lemma RotateBlockedWithoutWallKick(s: State, direction: int)
    requires |s.tetromino| >= 2 && !HasFixedBlock(s.tetromino) && !s.tetromino[1].wallKick
    ensures var rot := Rotated(s.tetromino, direction);
            CollisionX(s, rot) && !(CollisionY(s, rot) && s.tetromino[1].floorKick) ==>
              ApplyRotate(s, direction) == s
  {
  }

  /** The O piece never turns, in either direction. */
  lemma RotateOPieceIsNoOp(s: State, origin: G.Pos, direction: int)
    requires s.tetromino == CreateTetromino(origin, 1)
    ensures ApplyRotate(s, direction) == s
  {
    assert !s.tetromino[0].rotatable;
  }

  /**
    Restart: back to the initial state, keeping the high score, which a
    finished game raises to its score.
  */
  function ApplyRestart(s: State): (r: State)
    ensures s.gameEnd ==> r == InitialState().(highscore := if s.score > s.highscore then s.score else s.highscore)
    ensures !s.gameEnd ==> r == InitialState().(highscore := s.highscore)
    ensures r.highscore >= s.highscore && (s.gameEnd ==> r.highscore >= s.score)
  {
    if s.gameEnd then InitialState().(highscore := if s.score > s.highscore then s.score else s.highscore)
    else InitialState().(highscore := s.highscore)
  }

  /**
    PowerUp: with a charge left and the game running, deletes the bottom row
    (shifting everything above it down one row) and uses the charge; score,
    level and clearline are untouched.
  */
  function ApplyPowerUp(s: State): (r: State)
    ensures s.powerUp != 0 && !s.gameEnd ==>
              r == s.(blocks := RemovingRow([GridHeight], s.blocks), powerUp := s.powerUp - 1)
    ensures !(s.powerUp != 0 && !s.gameEnd) ==> r == s
    ensures r.score == s.score && r.level == s.level && r.clearline == s.clearline
  {
    if s.powerUp != 0 && !s.gameEnd then
      s.(blocks := RemovingRow([GridHeight], s.blocks), powerUp := s.powerUp - 1)
    else s
  }

  /**
    The bottom-row deletion of PowerUp drops exactly the blocks on row
    GridHeight, moves those above it down one row, and leaves blocks below
    it where they are.
  */
  lemma PowerUpRemovesBottomRow(s: State, g: Grid)
    requires s.powerUp != 0 && !s.gameEnd
    ensures |ApplyPowerUp(s).blocks| == |s.blocks| - RowCount(s.blocks, GridHeight)
    ensures g in ApplyPowerUp(s).blocks <==>
              exists j :: 0 <= j < |s.blocks| && s.blocks[j].position.y != GridHeight &&
                g == s.blocks[j].(position := G.Pos(s.blocks[j].position.x,
                        s.blocks[j].position.y + (if s.blocks[j].position.y < GridHeight then 1 else 0)))
  {
    CountInSplit(GridHeight, [], s.blocks);
    CountInNone(s.blocks);
    assert [GridHeight] + [] == [GridHeight];
    RemovingRowContents([GridHeight], s.blocks, g);
    forall j | 0 <= j < |s.blocks|
      ensures ShiftDown([GridHeight], s.blocks[j]) ==
              s.blocks[j].(position := G.Pos(s.blocks[j].position.x,
                 s.blocks[j].position.y + (if s.blocks[j].position.y < GridHeight then 1 else 0)))
    {
      assert CountGreater([GridHeight], s.blocks[j].position.y) ==
             (if GridHeight > s.blocks[j].position.y then 1 else 0) + CountGreater([], s.blocks[j].position.y);
    }
  }

  /** The seven actions of the game. */
  datatype Action =
    | Tetro(number: int)
    | Tick
    | Move(movement: Movement)
    | Movemax
    | Rotate(direction: int)
    | Restart
    | PowerUp

  /**
    What an action needs of the state to be defined: a catalog number for a
    spawn that happens, a non-empty piece for the drop scan, and a pivot
    block for a rotation that is not refused.
  */
  predicate Applicable(s: State, a: Action)
  {
    match a
    case Tetro(n) => !s.createTetro || 1 <= n <= 7
    case Tick => |s.tetromino| > 0
    case Movemax => |s.tetromino| > 0
    case Rotate(_) => |s.tetromino| >= 2 || HasFixedBlock(s.tetromino)
    case _ => true
  }

  /**
    The reducer (reduceState). Only Restart changes the high score, and it
    never lowers it; Move and PowerUp leave a finished game unchanged.
  */
  function ReduceState(s: State, a: Action): (r: State)
    requires Applicable(s, a)
    ensures r.highscore >= s.highscore
    ensures !a.Restart? ==> r.highscore == s.highscore
    ensures s.gameEnd && (a.Move? || a.PowerUp?) ==> r == s
  {
    match a
    case Tetro(n) => ApplyTetro(s, n)
    case Tick => ApplyTick(s)
    case Move(m) => ApplyMove(s, m)
    case Movemax => ApplyMovemax(s)
    case Rotate(d) => ApplyRotate(s, d)
    case Restart => ApplyRestart(s)
    case PowerUp => ApplyPowerUp(s)
  }

  /**
    The shape of every reachable state: four-block active and preview
    pieces, a landing preview that is empty or four blocks, a countdown in
    0..TickRateIncrease, a level that lags (never exceeds) clearline / 10,
    and non-negative counters.
  */
  ghost predicate Invariant(s: State)
  {
    && |s.tetromino| == 4
    && |s.previewTetro| == 4
    && (|s.hardDropTetro| == 0 || |s.hardDropTetro| == 4)
    && 0 <= s.tickRate <= TickRateIncrease
    && s.clearline >= 0
    && 0 <= s.level <= s.clearline / 10
    && s.score >= 0
    && s.highscore >= 0
    && s.powerUp >= 0
  }

  /** An action the input side can produce: spawns name a catalog entry. */
  predicate ValidAction(a: Action)
  {
    a.Tetro? ==> 1 <= a.number <= 7
  }

  lemma InitialStateInvariant()
    ensures Invariant(InitialState())
  {
  }

  /** Every valid action is defined on, and preserves, the invariant. */
  lemma ReducePreservesInvariant(s: State, a: Action)
    requires Invariant(s) && ValidAction(a)
    ensures Applicable(s, a) && Invariant(ReduceState(s, a))
  {
    match a
    case Tetro(n) => TetroPreservesInvariant(s, n);
    case Tick => TickPreservesInvariant(s);
    case Move(m) => MovePreservesInvariant(s, m);
    case Movemax => MovemaxPreservesInvariant(s);
    case Rotate(d) => RotatePreservesInvariant(s, d);
    case Restart => InitialStateInvariant();
    case PowerUp =>
  }

  lemma TetroPreservesInvariant(s: State, n: int)
    requires Invariant(s) && 1 <= n <= 7
    ensures Invariant(ApplyTetro(s, n))
  {
  }

  lemma TickPreservesInvariant(s: State)
    requires Invariant(s)
    ensures Invariant(ApplyTick(s))
  {
  }

  lemma MovePreservesInvariant(s: State, m: Movement)
    requires Invariant(s)
    ensures Invariant(ApplyMove(s, m))
  {
  }

  lemma MovemaxPreservesInvariant(s: State)
    requires Invariant(s)
    ensures Invariant(ApplyMovemax(s))
  {
  }

  lemma RotatePreservesInvariant(s: State, d: int)
    requires Invariant(s)
    ensures Invariant(ApplyRotate(s, d))
  {
    var r := ApplyRotate(s, d);
    if r != s && !HasFixedBlock(s.tetromino) {
      var rot := Rotated(s.tetromino, d);
      var fk, wk := FloorKicks(rot), WallKicks(rot);
      if r.tetromino in fk {
        var k :| 0 <= k < |fk| && fk[k] == r.tetromino;
      } else if r.tetromino in wk {
        var k :| 0 <= k < |wk| && wk[k] == r.tetromino;
      }
    }
  }

  /** Game over does not stop Tick: the countdown still runs. */
  lemma TickIgnoresGameEnd(s: State)
    requires s.gameEnd && s.tickRate > 0 && |s.tetromino| > 0
    ensures ReduceState(s, Tick).tickRate == s.tickRate - 1
    ensures ReduceState(s, Tick) != s
  {
  }

  /**
    From the initial state the first Tick moves the piece down one row
    (the countdown starts at 0) and restarts the countdown at 5.
  */
  lemma FirstTickDropsPiece()
    ensures ReduceState(InitialState(), Tick).tetromino ==
              MoveTetro(InitialState().tetromino, Movement(Y, 1))
    ensures ReduceState(InitialState(), Tick).tickRate == TickRateIncrease
    ensures !ReduceState(InitialState(), Tick).gameEnd
  {
    var s := InitialState();
    var next := MoveTetro(s.tetromino, Movement(Y, 1));
    assert !CollidesWithOtherBlocks(s, next);
    forall i | 0 <= i < 4 ensures !OutsideY(next[i].position) {
    }
    assert !CollisionY(s, next);
    var h := HandleCollision(s, next, Movement(Y, 1));
    assert h.blocks == [];
  }
}
