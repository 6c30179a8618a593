/** Worked cases of the engine on concrete fields and pieces. */
module Scenarios {
  import opened Shapes
  import opened Rotation
  import opened Playfield
  import opened Game

  /** An O piece at row 18, column 4 of an empty field cannot fall further, and locking
      it fills exactly the four cells (18,4), (18,5), (19,4) and (19,5). */
  lemma OPieceLandsOnFloor()
    ensures IsValidMove(EmptyGrid(), BaseMatrix(O), 18, 4)
    ensures !IsValidMove(EmptyGrid(), BaseMatrix(O), 19, 4)
    ensures var g := Lock(EmptyGrid(), BaseMatrix(O), O, 18, 4);
      forall i, j :: 0 <= i < Rows && 0 <= j < Cols ==>
        (g[i][j] == Block(O) <==> (i == 18 || i == 19) && (j == 4 || j == 5))
  {
    var m := BaseMatrix(O);
    assert Blocked(EmptyGrid(), m, 19, 4, 1, 0);
  }

  /** When the bottom row is the only full row, clearing drops it and shifts every other
      row down by one under a new empty top row. */
  lemma ClearOnlyBottomRow(g: Grid)
    requires WellFormed(g) && IsFull(g[Rows - 1])
    requires forall i :: 0 <= i < Rows - 1 ==> !IsFull(g[i])
    ensures ClearRows(g) == [EmptyRow()] + g[..Rows - 1]
  {
    var top := g[..Rows - 1];
    NoFullRows(top);
    assert g[..|g| - 1] == top;
  }

  /** The base T matrix on an empty field: at column 8 its right end is off the field,
      at column 7 all of it is on the field. */
  lemma TBaseNearRightWall()
    ensures !Fits(EmptyGrid(), BaseMatrix(T), 0, 8)
    ensures Fits(EmptyGrid(), BaseMatrix(T), 0, 7)
  {
    var b := BaseMatrix(T);
    assert Blocked(EmptyGrid(), b, 0, 8, 1, 2);
    forall r, c | 0 <= r < |b| && 0 <= c < |b[r]|
      ensures !Blocked(EmptyGrid(), b, 0, 7, r, c)
    {
    }
  }

  /** A T piece turned three times, hard against the right wall at column 8, cannot turn
      in place; the kick moves it one column left, to 7, and the turn goes through. */
  lemma TPieceKicksOffRightWall()
    ensures var m := RotateN(BaseMatrix(T), 3);
      var s := State(EmptyGrid(), T, m, 8, 0, [], 0);
      RotatePiece(s) == s.(x := 7, matrix := BaseMatrix(T))
  {
    var b := BaseMatrix(T);
    var m := RotateN(b, 3);
    RotateFourTimes(b);
    assert Rotate(m) == b;
    TBaseNearRightWall();
    var s := State(EmptyGrid(), T, m, 8, 0, [], 0);
    assert s.x + Kick(s.x) == 7;
  }
}
