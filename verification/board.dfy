/**
  The 19x19 Gomoku grid shared by the room server and the browser client.
  A cell holds 0 (empty), 1 (black) or 2 (white).
 */
module Board {

  /** Side length of the grid. */
  const Grid: int := 19

  type Board = seq<seq<int>>

  /** A board is a Grid x Grid array of cells. */
  predicate WellFormed(bd: Board)
  {
    |bd| == Grid && forall i :: 0 <= i < |bd| ==> |bd[i]| == Grid
  }

  /** Every cell is empty, black or white. */
  predicate ValidCells(bd: Board)
    requires WellFormed(bd)
  {
    forall r, c :: 0 <= r < Grid && 0 <= c < Grid ==> 0 <= bd[r][c] <= 2
  }

  /** Coordinates on the grid. */
  predicate InRange(r: int, c: int)
  {
    0 <= r < Grid && 0 <= c < Grid
  }

  /** A fresh board: every cell empty. */
  function EmptyBoard(): (bd: Board)
    ensures WellFormed(bd) && ValidCells(bd)
    ensures forall r, c :: InRange(r, c) ==> bd[r][c] == 0
  {
    seq(Grid, _ => seq(Grid, _ => 0))
  }

  /** The board with cell (r, c) set to v and every other cell as it was. */
  function Place(bd: Board, r: int, c: int, v: int): (bd': Board)
    requires WellFormed(bd) && InRange(r, c)
    ensures WellFormed(bd')
    ensures bd'[r][c] == v
    ensures forall r', c' :: InRange(r', c') && (r' != r || c' != c) ==> bd'[r'][c'] == bd[r'][c']
  {
    bd[r := bd[r][c := v]]
  }

  /** Number of non-empty cells in a row. */
  function RowStones(row: seq<int>): nat
  {
    if row == [] then 0 else RowStones(row[..|row| - 1]) + (if row[|row| - 1] != 0 then 1 else 0)
  }

  /** Number of non-empty cells on a board. */
  function StoneCount(bd: Board): nat
  {
    if bd == [] then 0 else StoneCount(bd[..|bd| - 1]) + RowStones(bd[|bd| - 1])
  }

  /** Writing v into position i of a row changes its stone count by the difference of the two cells. */
  lemma {:induction false} RowStonesUpdate(row: seq<int>, i: int, v: int)
    requires 0 <= i < |row|
    ensures RowStones(row[i := v]) + (if row[i] != 0 then 1 else 0)
         == RowStones(row) + (if v != 0 then 1 else 0)
  {
    var row' := row[i := v];
    if i == |row| - 1 {
      assert row'[..|row'| - 1] == row[..|row| - 1];
    } else {
      assert row'[..|row'| - 1] == row[..|row| - 1][i := v];
      RowStonesUpdate(row[..|row| - 1], i, v);
    }
  }

  /** Replacing row i of a board changes its stone count by the difference of the two rows. */
  lemma {:induction false} StoneCountUpdate(bd: Board, i: int, row: seq<int>)
    requires 0 <= i < |bd|
    ensures StoneCount(bd[i := row]) + RowStones(bd[i]) == StoneCount(bd) + RowStones(row)
  {
    var bd' := bd[i := row];
    if i == |bd| - 1 {
      assert bd'[..|bd'| - 1] == bd[..|bd| - 1];
    } else {
      assert bd'[..|bd'| - 1] == bd[..|bd| - 1][i := row];
      StoneCountUpdate(bd[..|bd| - 1], i, row);
    }
  }

  /** Putting a stone on an empty cell adds exactly one stone to the board. */
  lemma PlaceAddsOneStone(bd: Board, r: int, c: int, v: int)
    requires WellFormed(bd) && InRange(r, c)
    requires bd[r][c] == 0 && v != 0
    ensures StoneCount(Place(bd, r, c, v)) == StoneCount(bd) + 1
  {
    RowStonesUpdate(bd[r], c, v);
    StoneCountUpdate(bd, r, bd[r][c := v]);
  }

  lemma {:induction false} RowStonesZero(row: seq<int>)
    requires forall i :: 0 <= i < |row| ==> row[i] == 0
    ensures RowStones(row) == 0
  {
    if row != [] {
      RowStonesZero(row[..|row| - 1]);
    }
  }

  /** The empty board holds no stones. */
  lemma {:induction false} EmptyBoardHasNoStones(bd: Board)
    requires forall i, j :: 0 <= i < |bd| && 0 <= j < |bd[i]| ==> bd[i][j] == 0
    ensures StoneCount(bd) == 0
  {
    if bd != [] {
      RowStonesZero(bd[|bd| - 1]);
      EmptyBoardHasNoStones(bd[..|bd| - 1]);
    }
  }

  lemma EmptyBoardStoneCount()
    ensures StoneCount(EmptyBoard()) == 0
  {
    EmptyBoardHasNoStones(EmptyBoard());
  }
}
