/**
  Row clearing: detection of full rows, removal of listed rows with the
  shift of the surviving blocks, the line-clear score table, and the state
  update that ties them to clearline, level and power-ups.
*/
module Rows {
  import opened Geometry
  import opened Types

  /** How many of `rows` are strictly greater than `y` (below it on screen). */
  function CountGreater(rows: seq<int>, y: int): (n: nat)
    ensures n <= |rows|
  {
    if rows == [] then 0
    else (if rows[0] > y then 1 else 0) + CountGreater(rows[1..], y)
  }

  /** How many of `blocks` lie on row `row`. */
  function RowCount(blocks: seq<Grid>, row: int): (n: nat)
    ensures n <= |blocks|
  {
    if blocks == [] then 0
    else (if blocks[0].position.y == row then 1 else 0) + RowCount(blocks[1..], row)
  }

  /** How many of `blocks` lie on one of `rows`. */
  function CountIn(rows: seq<int>, blocks: seq<Grid>): (n: nat)
    ensures n <= |blocks|
  {
    if blocks == [] then 0
    else (if blocks[0].position.y in rows then 1 else 0) + CountIn(rows, blocks[1..])
  }

  /** A surviving block moved down by the number of removed rows below it. */
  function ShiftDown(rows: seq<int>, b: Grid): Grid
  {
    b.(position := Pos(b.position.x, b.position.y + CountGreater(rows, b.position.y)))
  }

  /**
    The settled blocks after removing `rows` (removingRow): the blocks on
    those rows are dropped and every other block shifts down.
  */
  function RemovingRow(rows: seq<int>, blocks: seq<Grid>): (r: seq<Grid>)
    ensures |r| == |blocks| - CountIn(rows, blocks)
  {
    if blocks == [] then []
    else if blocks[0].position.y in rows then RemovingRow(rows, blocks[1..])
    else [ShiftDown(rows, blocks[0])] + RemovingRow(rows, blocks[1..])
  }

  /** Removal works block by block, in order: it distributes over concatenation. */
  lemma {:induction false} RemovingRowAppend(rows: seq<int>, a: seq<Grid>, b: seq<Grid>)
    ensures RemovingRow(rows, a + b) == RemovingRow(rows, a) + RemovingRow(rows, b)
  {
    if a != [] {
      assert (a + b)[0] == a[0];
      assert (a + b)[1..] == a[1..] + b;
      RemovingRowAppend(rows, a[1..], b);
    } else {
      assert a + b == b;
    }
  }

  /**
    A block survives exactly when its row is not removed; a survivor keeps
    its x, colour and flags and moves down by the removed rows below it.
  */
  lemma {:induction false} RemovingRowContents(rows: seq<int>, blocks: seq<Grid>, g: Grid)
    ensures g in RemovingRow(rows, blocks) <==>
              exists j :: 0 <= j < |blocks| && blocks[j].position.y !in rows && g == ShiftDown(rows, blocks[j])
  {
    if blocks != [] {
      RemovingRowContents(rows, blocks[1..], g);
      if exists j :: 0 <= j < |blocks[1..]| && blocks[1..][j].position.y !in rows && g == ShiftDown(rows, blocks[1..][j]) {
        var j :| 0 <= j < |blocks[1..]| && blocks[1..][j].position.y !in rows && g == ShiftDown(rows, blocks[1..][j]);
        assert blocks[j + 1] == blocks[1..][j];
      }
      if exists j :: 0 <= j < |blocks| && blocks[j].position.y !in rows && g == ShiftDown(rows, blocks[j]) {
        var j :| 0 <= j < |blocks| && blocks[j].position.y !in rows && g == ShiftDown(rows, blocks[j]);
        if j > 0 {
          assert blocks[1..][j - 1] == blocks[j];
        }
      }
    }
  }

  /** Removing no rows leaves the blocks as they are. */
  lemma {:induction false} RemovingNoRows(blocks: seq<Grid>)
    ensures RemovingRow([], blocks) == blocks
  {
    if blocks != [] {
      RemovingNoRows(blocks[1..]);
      assert ShiftDown([], blocks[0]) == blocks[0];
      assert blocks == [blocks[0]] + blocks[1..];
    }
  }

  /**
    The full rows of `row`..GridHeight in ascending order: those holding
    exactly GridWidth blocks.
  */
  function FullRowsFrom(blocks: seq<Grid>, row: int): (rows: seq<int>)
    requires 1 <= row <= GridHeight + 1
    ensures forall i :: 0 <= i < |rows| ==> row <= rows[i] <= GridHeight
    ensures forall i, j :: 0 <= i < j < |rows| ==> rows[i] < rows[j]
    ensures forall r :: r in rows <==> row <= r <= GridHeight && RowCount(blocks, r) == GridWidth
    decreases GridHeight + 1 - row
  {
    if row > GridHeight then []
    else if RowCount(blocks, row) == GridWidth then [row] + FullRowsFrom(blocks, row + 1)
    else FullRowsFrom(blocks, row + 1)
  }

  /**
    The full rows of the board (findFullRows): r in 1..GridHeight is listed
    iff exactly GridWidth blocks lie on it; the list is strictly ascending.
  */
  function FindFullRows(blocks: seq<Grid>): (rows: seq<int>)
    ensures forall i, j :: 0 <= i < j < |rows| ==> rows[i] < rows[j]
    ensures forall r :: r in rows <==> 1 <= r <= GridHeight && RowCount(blocks, r) == GridWidth
  {
    FullRowsFrom(blocks, 1)
  }

  /** The line-clear score: 40, 100, 300, 1200 for 1..4 rows, nothing otherwise. */
  function ScoreForClear(n: int): (points: nat)
    ensures points > 0 <==> 1 <= n <= 4
    ensures points <= 1200
    ensures 1 <= n <= 4 ==> points == [40, 100, 300, 1200][n - 1]
  {
    if n == 1 then 40
    else if n == 2 then 100
    else if n == 3 then 300
    else if n == 4 then 1200
    else 0
  }

  /**
    The state after clearing the full rows (removeFullRow). The new level is
    computed from clearline BEFORE this call's rows are added, and a
    power-up is granted when that level differs from the old one.
  */
  function RemoveFullRow(s: State): (r: State)
    ensures var rows := FindFullRows(s.blocks);
            && r.blocks == RemovingRow(rows, s.blocks)
            && r.clearline == s.clearline + |rows|
            && r.score == s.score + ScoreForClear(|rows|)
            && r.level == s.clearline / 10
            && r.powerUp == (if s.level == r.level then s.powerUp else s.powerUp + 1)
            && r == s.(blocks := r.blocks, clearline := r.clearline, score := r.score,
                       level := r.level, powerUp := r.powerUp)
    ensures s.clearline >= 0 ==> 0 <= r.level <= r.clearline / 10
  {
    var fullRows := FindFullRows(s.blocks);
    var newLevel := s.clearline / 10;
    s.(level := newLevel,
       powerUp := if s.level == newLevel then s.powerUp else s.powerUp + 1,
       clearline := s.clearline + |fullRows|,
       blocks := RemovingRow(fullRows, s.blocks),
       score := s.score + ScoreForClear(|fullRows|))
  }

  /** Counting over a row list splits off its first row when rows do not repeat. */
  lemma {:induction false} CountInSplit(r0: int, rest: seq<int>, blocks: seq<Grid>)
    requires r0 !in rest
    ensures CountIn([r0] + rest, blocks) == RowCount(blocks, r0) + CountIn(rest, blocks)
  {
    if blocks != [] {
      CountInSplit(r0, rest, blocks[1..]);
    }
  }

  /** Distinct rows that are all full hold GridWidth blocks each. */
  lemma {:induction false} CountInFullRows(rows: seq<int>, blocks: seq<Grid>)
    requires forall i, j :: 0 <= i < j < |rows| ==> rows[i] < rows[j]
    requires forall i :: 0 <= i < |rows| ==> RowCount(blocks, rows[i]) == GridWidth
    ensures CountIn(rows, blocks) == GridWidth * |rows|
  {
    if rows == [] {
      CountInNone(blocks);
    } else {
      assert rows == [rows[0]] + rows[1..];
      CountInSplit(rows[0], rows[1..], blocks);
      CountInFullRows(rows[1..], blocks);
    }
  }

  lemma {:induction false} CountInNone(blocks: seq<Grid>)
    ensures CountIn([], blocks) == 0
  {
    if blocks != [] {
      CountInNone(blocks[1..]);
    }
  }

  /**
    Row clearing drops exactly GridWidth blocks per full row, and leaves the
    blocks and the score alone when no row is full.
  */
  lemma RemoveFullRowDropsFullRows(s: State)
    ensures |RemoveFullRow(s).blocks| == |s.blocks| - GridWidth * |FindFullRows(s.blocks)|
    ensures FindFullRows(s.blocks) == [] ==>
              RemoveFullRow(s).blocks == s.blocks && RemoveFullRow(s).score == s.score &&
              RemoveFullRow(s).clearline == s.clearline
  {
    var rows := FindFullRows(s.blocks);
    CountInFullRows(rows, s.blocks);
    if rows == [] {
      RemovingNoRows(s.blocks);
    }
  }
}
