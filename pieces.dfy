/**
  Pieces (tetrominoes) as sequences of blocks: creation from the catalog,
  translation by a movement, the kick candidates, and rotation of a whole
  piece about a pivot.
*/
module Pieces {
  import opened Geometry
  import opened Types

  datatype Axis = X | Y

  /** A one-axis movement by `amount` cells. */
  datatype Movement = Movement(axis: Axis, amount: int)

  /** The translation vector of a movement. */
  function Delta(m: Movement): Pos
  {
    Pos(if m.axis == X then m.amount else 0, if m.axis == Y then m.amount else 0)
  }

  /** `r` is `t` block for block, with at most the positions changed. */
  ghost predicate SameBlocksAt(t: seq<Grid>, r: seq<Grid>)
  {
    |r| == |t| &&
    forall i :: 0 <= i < |t| ==> r[i].(position := t[i].position) == t[i]
  }

  /** Every block of `t` translated by `d`; colour and flags are kept. */
  function Translate(t: seq<Grid>, d: Pos): (r: seq<Grid>)
    ensures SameBlocksAt(t, r)
    ensures forall i :: 0 <= i < |t| ==>
              r[i].position.x - t[i].position.x == d.x && r[i].position.y - t[i].position.y == d.y
  {
    seq(|t|, i requires 0 <= i < |t| => t[i].(position := Add(t[i].position, d)))
  }

  /** A piece moved by a one-axis movement (moveTetro). */
  function MoveTetro(t: seq<Grid>, m: Movement): (r: seq<Grid>)
    ensures SameBlocksAt(t, r)
    ensures forall i :: 0 <= i < |t| ==>
              (m.axis == X ==> r[i].position == Pos(t[i].position.x + m.amount, t[i].position.y)) &&
              (m.axis == Y ==> r[i].position == Pos(t[i].position.x, t[i].position.y + m.amount))
  {
    Translate(t, Delta(m))
  }

  /** Two translations compose into one by the summed vector. */
  lemma TranslateCompose(t: seq<Grid>, d1: Pos, d2: Pos)
    ensures Translate(Translate(t, d1), d2) == Translate(t, Add(d1, d2))
  {
    var a, b := Translate(Translate(t, d1), d2), Translate(t, Add(d1, d2));
    assert |a| == |b|;
    forall i | 0 <= i < |a| ensures a[i] == b[i] {
      assert a[i].(position := t[i].position) == t[i];
      assert b[i].(position := t[i].position) == t[i];
    }
  }

  /** Moving down by `a` and then by `b` is moving down by `a + b`. */
  lemma MoveDownCompose(t: seq<Grid>, a: int, b: int)
    ensures MoveTetro(MoveTetro(t, Movement(Y, a)), Movement(Y, b)) == MoveTetro(t, Movement(Y, a + b))
  {
    TranslateCompose(t, Pos(0, a), Pos(0, b));
  }

  /** A movement of amount zero leaves the piece as it is. */
  lemma MoveByZero(t: seq<Grid>, axis: Axis)
    ensures MoveTetro(t, Movement(axis, 0)) == t
  {
    var r := MoveTetro(t, Movement(axis, 0));
    assert |r| == |t|;
    forall i | 0 <= i < |t| ensures r[i] == t[i] {
      assert r[i].(position := t[i].position) == t[i];
    }
  }

  /** One candidate piece per offset, in the order of the offsets. */
  function Kicks(t: seq<Grid>, offsets: seq<Pos>): (r: seq<seq<Grid>>)
    ensures |r| == |offsets|
    ensures forall k :: 0 <= k < |offsets| ==> |r[k]| == |t| && SameBlocksAt(t, r[k])
    ensures forall k, i :: 0 <= k < |offsets| && 0 <= i < |t| ==>
              r[k][i].position == Add(t[i].position, offsets[k])
  {
    seq(|offsets|, k requires 0 <= k < |offsets| => Translate(t, offsets[k]))
  }

  const WallKickOffsets: seq<Pos> := [Pos(1, 0), Pos(2, 0), Pos(-1, 0), Pos(-2, 0)]
  const FloorKickOffsets: seq<Pos> := [Pos(0, -1), Pos(0, -2)]

  /** Wall kicks: the piece shifted right 1, right 2, left 1, left 2, in that order. */
  function WallKicks(t: seq<Grid>): (r: seq<seq<Grid>>)
    ensures |r| == 4 && forall k :: 0 <= k < 4 ==> |r[k]| == |t|
    ensures forall k, i :: 0 <= k < 4 && 0 <= i < |t| ==> r[k][i].position.y == t[i].position.y
    ensures forall i :: 0 <= i < |t| ==>
              r[0][i].position.x == t[i].position.x + 1 && r[1][i].position.x == t[i].position.x + 2 &&
              r[2][i].position.x == t[i].position.x - 1 && r[3][i].position.x == t[i].position.x - 2
    ensures forall k :: 0 <= k < 4 ==> SameBlocksAt(t, r[k])
  {
    Kicks(t, WallKickOffsets)
  }

  /** Floor kicks: the piece lifted by 1, then by 2. */
  function FloorKicks(t: seq<Grid>): (r: seq<seq<Grid>>)
    ensures |r| == 2 && forall k :: 0 <= k < 2 ==> |r[k]| == |t|
    ensures forall k, i :: 0 <= k < 2 && 0 <= i < |t| ==> r[k][i].position.x == t[i].position.x
    ensures forall i :: 0 <= i < |t| ==>
              r[0][i].position.y == t[i].position.y - 1 && r[1][i].position.y == t[i].position.y - 2
    ensures forall k :: 0 <= k < 2 ==> SameBlocksAt(t, r[k])
  {
    Kicks(t, FloorKickOffsets)
  }

  /** Every block of the piece rotated about `pivot`. */
  function RotateTetro(t: seq<Grid>, pivot: Pos, direction: int): (r: seq<Grid>)
    ensures SameBlocksAt(t, r)
    ensures forall i :: 0 <= i < |t| ==> r[i].position == Rotate(t[i].position, pivot, direction)
  {
    seq(|t|, i requires 0 <= i < |t| => t[i].(position := Rotate(t[i].position, pivot, direction)))
  }

  /** Rotating about the pivot block's own position leaves that block in place. */
  lemma RotateKeepsPivotBlock(t: seq<Grid>, direction: int)
    requires |t| >= 2
    ensures RotateTetro(t, t[1].position, direction)[1] == t[1]
  {
    assert RotateTetro(t, t[1].position, direction)[1].(position := t[1].position) == t[1];
  }

  /** A quarter turn of the piece followed by the opposite one restores it. */
  lemma RotateTetroInverse(t: seq<Grid>, pivot: Pos, direction: int)
    requires direction == 1 || direction == -1
    ensures RotateTetro(RotateTetro(t, pivot, direction), pivot, -direction) == t
  {
    var r := RotateTetro(RotateTetro(t, pivot, direction), pivot, -direction);
    assert |r| == |t|;
    forall i | 0 <= i < |t| ensures r[i] == t[i] {
      RotateInverse(t[i].position, pivot, direction);
      assert r[i].(position := t[i].position) == t[i];
    }
  }

  /** A block's coordinates are pairwise distinct across the piece. */
  ghost predicate DistinctCells(t: seq<Grid>)
  {
    forall i, j :: 0 <= i < j < |t| ==> t[i].position != t[j].position
  }

  /**
    A fresh piece of catalog number `num` with its shape offsets translated
    by `position` (createTetromino).
  */
  function CreateTetromino(position: Pos, num: int): (r: seq<Grid>)
    requires 1 <= num <= 7
    ensures |r| == 4 && DistinctCells(r)
    ensures forall i :: 0 <= i < 4 ==>
              && r[i].color == ColorOf(num)
              && r[i].rotatable == TetrominoShapes[num - 1].rotatable
              && r[i].wallKick == TetrominoShapes[num - 1].wallKick
              && r[i].floorKick == TetrominoShapes[num - 1].floorKick
              && position.x <= r[i].position.x <= position.x + 3
              && position.y <= r[i].position.y <= position.y + 1
    ensures r[1].position.x == position.x + 1
    ensures forall i :: 0 <= i < 4 ==>
              r[i].position == Pos(position.x + TetrominoShapes[num - 1].shape[i].0,
                                   position.y + TetrominoShapes[num - 1].shape[i].1)
  {
    CatalogShapesHaveFourDistinctCells();
    CatalogOffsetsInBox();
    CatalogPivotColumn();
    var e := TetrominoShapes[num - 1];
    seq(4, i requires 0 <= i < 4 =>
      Grid(Pos(position.x + e.shape[i].0, position.y + e.shape[i].1),
           ColorOf(num), e.rotatable, e.wallKick, e.floorKick))
  }

  /** The O piece (catalog number 1) is the only piece with a non-rotatable block. */
  lemma OnlyOPieceIsFixed(position: Pos, num: int)
    requires 1 <= num <= 7
    ensures (exists i :: 0 <= i < 4 && !CreateTetromino(position, num)[i].rotatable) <==> num == 1
  {
    var t := CreateTetromino(position, num);
    CatalogFlags();
    if num == 1 {
      assert !t[0].rotatable;
    }
  }
}
