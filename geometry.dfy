/**
  Integer grid geometry: the immutable position type of the game, with
  translation and the quarter-turn rotation about a pivot that pieces use.
*/
module Geometry {

  /** A cell address on the board; y grows downwards. */
  datatype Pos = Pos(x: int, y: int)

  /** Component-wise sum of two positions (translation of `a` by `b`). */
  function Add(a: Pos, b: Pos): (r: Pos)
    ensures r.x - a.x == b.x && r.y - a.y == b.y
  {
    Pos(a.x + b.x, a.y + b.y)
  }

  /**
    Rotation of `p` about `pivot`; direction 1 and -1 are the two quarter
    turns, any other integer scales the turned offset by that factor.
  */
  function Rotate(p: Pos, pivot: Pos, direction: int): (r: Pos)
    ensures p == pivot ==> r == pivot
  {
    Pos(pivot.x + direction * (pivot.y - p.y), pivot.y - direction * (pivot.x - p.x))
  }

  /** Squared Euclidean distance between two cells. */
  function SqDist(p: Pos, q: Pos): (r: nat)
    ensures r == 0 <==> p == q
  {
    (p.x - q.x) * (p.x - q.x) + (p.y - q.y) * (p.y - q.y)
  }

  /** Translating by `b` and then by its negation is the identity. */
  lemma AddInverse(a: Pos, b: Pos)
    ensures Add(Add(a, b), Pos(-b.x, -b.y)) == a
  {
  }

  /**
    Rotation turns the offset from the pivot by a right angle: the turned
    offset is perpendicular to the original one, and their cross product is
    direction times the squared distance, which fixes the sense of the turn.
  */
  lemma RotateIsQuarterTurn(p: Pos, pivot: Pos, direction: int)
    ensures var r := Rotate(p, pivot, direction);
            (r.x - pivot.x) * (p.x - pivot.x) + (r.y - pivot.y) * (p.y - pivot.y) == 0
    ensures var r := Rotate(p, pivot, direction);
            (p.x - pivot.x) * (r.y - pivot.y) - (p.y - pivot.y) * (r.x - pivot.x) == direction * SqDist(p, pivot)
  {
  }

  /** A quarter turn followed by the opposite quarter turn restores the point. */
  lemma RotateInverse(p: Pos, pivot: Pos, direction: int)
    requires direction == 1 || direction == -1
    ensures Rotate(Rotate(p, pivot, direction), pivot, -direction) == p
  {
    if direction == 1 {
      assert Rotate(p, pivot, 1) == Pos(pivot.x + pivot.y - p.y, pivot.y - pivot.x + p.x);
    } else {
      assert Rotate(p, pivot, -1) == Pos(pivot.x - pivot.y + p.y, pivot.y + pivot.x - p.x);
    }
  }

  /** Two quarter turns in the same direction reflect the point through the pivot. */
  lemma RotateTwiceIsHalfTurn(p: Pos, pivot: Pos, direction: int)
    requires direction == 1 || direction == -1
    ensures Rotate(Rotate(p, pivot, direction), pivot, direction)
         == Pos(2 * pivot.x - p.x, 2 * pivot.y - p.y)
  {
    if direction == 1 {
      assert Rotate(p, pivot, 1) == Pos(pivot.x + pivot.y - p.y, pivot.y - pivot.x + p.x);
    } else {
      assert Rotate(p, pivot, -1) == Pos(pivot.x - pivot.y + p.y, pivot.y + pivot.x - p.x);
    }
  }

  /** Four quarter turns in the same direction restore the point. */
  lemma {:induction false} RotateFourTimes(p: Pos, pivot: Pos, direction: int)
    requires direction == 1 || direction == -1
    ensures Rotate(Rotate(Rotate(Rotate(p, pivot, direction), pivot, direction), pivot, direction), pivot, direction) == p
  {
    var half := Rotate(Rotate(p, pivot, direction), pivot, direction);
    RotateTwiceIsHalfTurn(p, pivot, direction);
    RotateTwiceIsHalfTurn(half, pivot, direction);
  }

  /**
    Rotation scales the squared distance to the pivot by direction squared,
    so a quarter turn (direction 1 or -1) preserves it.
  */
  lemma RotateScalesDistance(p: Pos, pivot: Pos, direction: int)
    ensures SqDist(Rotate(p, pivot, direction), pivot)
         == direction * direction * SqDist(p, pivot)
    ensures direction == 1 || direction == -1 ==>
              SqDist(Rotate(p, pivot, direction), pivot) == SqDist(p, pivot)
  {
    var a, b := pivot.y - p.y, pivot.x - p.x;
    var q := Rotate(p, pivot, direction);
    assert q.x - pivot.x == direction * a;
    assert q.y - pivot.y == -(direction * b);
    assert (direction * a) * (direction * a) == direction * direction * (a * a);
    assert (direction * b) * (direction * b) == direction * direction * (b * b);
    assert SqDist(p, pivot) == a * a + b * b;
  }
}
