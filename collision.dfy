/**
  The three collision predicates of the game and the first-fit search over
  kick candidates. The boundary tests subtract one from the coordinate before
  comparing, so the legal cells are x in 1..GridWidth and y in 2..GridHeight.
*/
module Collision {
  import opened Geometry
  import opened Types

  /** The per-block horizontal boundary test, with its x - 1. */
  predicate OutsideX(p: Pos)
  {
    p.x - 1 < 0 || p.x - 1 >= GridWidth
  }

  /** The per-block vertical boundary test, with its y - 1. */
  predicate OutsideY(p: Pos)
  {
    p.y - 1 <= 0 || p.y - 1 >= GridHeight
  }

  /** The cells a sequence of blocks occupies. */
  function Cells(t: seq<Grid>): set<Pos>
  {
    set i | 0 <= i < |t| :: t[i].position
  }

  /** Some block of `t` sits on the same cell as a settled block. */
  predicate CollidesWithOtherBlocks(s: State, t: seq<Grid>)
  {
    exists i, j :: 0 <= i < |t| && 0 <= j < |s.blocks| && t[i].position == s.blocks[j].position
  }

  /**
    Some block of `t` fails the horizontal boundary test or the whole piece
    overlaps the settled blocks (the overlap test sits inside the per-block
    test, so an empty piece never collides).
  */
  predicate CollisionX(s: State, t: seq<Grid>)
  {
    exists i :: 0 <= i < |t| && (OutsideX(t[i].position) || CollidesWithOtherBlocks(s, t))
  }

  /** As CollisionX, with the vertical boundary test. */
  predicate CollisionY(s: State, t: seq<Grid>)
  {
    exists i :: 0 <= i < |t| && (OutsideY(t[i].position) || CollidesWithOtherBlocks(s, t))
  }

  /** The overlap test holds exactly when the piece's cells and the settled cells intersect. */
  lemma OverlapIffSharedCell(s: State, t: seq<Grid>)
    ensures CollidesWithOtherBlocks(s, t) <==> Cells(t) * Cells(s.blocks) != {}
  {
    if CollidesWithOtherBlocks(s, t) {
      var i, j :| 0 <= i < |t| && 0 <= j < |s.blocks| && t[i].position == s.blocks[j].position;
      assert t[i].position in Cells(t) * Cells(s.blocks);
    }
  }

  /** The horizontal and vertical legal ranges that the x - 1 / y - 1 tests leave. */
  lemma LegalCells(p: Pos)
    ensures !OutsideX(p) <==> 1 <= p.x <= GridWidth
    ensures !OutsideY(p) <==> 2 <= p.y <= GridHeight
  {
  }

  /**
    CollisionX holds exactly for a non-empty piece with a block outside
    columns 1..GridWidth or on a settled cell.
  */
  lemma CollisionXIff(s: State, t: seq<Grid>)
    ensures CollisionX(s, t) <==>
              |t| > 0 &&
              ((exists i :: 0 <= i < |t| && !(1 <= t[i].position.x <= GridWidth)) ||
               CollidesWithOtherBlocks(s, t))
  {
    if |t| > 0 && CollidesWithOtherBlocks(s, t) {
      assert OutsideX(t[0].position) || CollidesWithOtherBlocks(s, t);
    }
  }

  /**
    CollisionY holds exactly for a non-empty piece with a block outside
    rows 2..GridHeight or on a settled cell.
  */
  lemma CollisionYIff(s: State, t: seq<Grid>)
    ensures CollisionY(s, t) <==>
              |t| > 0 &&
              ((exists i :: 0 <= i < |t| && !(2 <= t[i].position.y <= GridHeight)) ||
               CollidesWithOtherBlocks(s, t))
  {
    if |t| > 0 && CollidesWithOtherBlocks(s, t) {
      assert OutsideY(t[0].position) || CollidesWithOtherBlocks(s, t);
    }
  }

  /** A candidate placement is acceptable when it collides on neither axis. */
  predicate Fits(s: State, t: seq<Grid>)
  {
    !CollisionX(s, t) && !CollisionY(s, t)
  }

  /** An acceptable placement lies on legal cells and overlaps nothing settled. */
  lemma FitsOnBoard(s: State, t: seq<Grid>)
    requires |t| > 0 && Fits(s, t)
    ensures forall i :: 0 <= i < |t| ==>
              1 <= t[i].position.x <= GridWidth && 2 <= t[i].position.y <= GridHeight
    ensures forall i, j :: 0 <= i < |t| && 0 <= j < |s.blocks| ==> t[i].position != s.blocks[j].position
  {
    forall i | 0 <= i < |t|
      ensures 1 <= t[i].position.x <= GridWidth && 2 <= t[i].position.y <= GridHeight
    {
      assert !(OutsideX(t[i].position) || CollidesWithOtherBlocks(s, t));
      assert !(OutsideY(t[i].position) || CollidesWithOtherBlocks(s, t));
    }
    assert !(OutsideX(t[0].position) || CollidesWithOtherBlocks(s, t));
  }

  /**
    The index of the first candidate that fits, or |cands| when none does
    (the source's `find` over the kick list).
  */
  function FirstFit(s: State, cands: seq<seq<Grid>>): (k: nat)
    ensures k <= |cands|
    ensures k < |cands| ==> Fits(s, cands[k])
    ensures forall j :: 0 <= j < k ==> !Fits(s, cands[j])
  {
    if cands == [] then 0
    else if Fits(s, cands[0]) then 0
    else 1 + FirstFit(s, cands[1..])
  }
}
