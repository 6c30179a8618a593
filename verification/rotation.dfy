/** Clockwise rotation of a square piece matrix (tetris.js, `rotate`). */
module Rotation {
  import opened Shapes
  import opened Seqs

  /** Column `i` of a square matrix, read top to bottom. */
  function Column(m: Matrix, i: nat): (c: seq<Bit>)
    requires IsSquare(m) && i < |m|
    ensures |c| == |m|
    ensures forall k :: 0 <= k < |m| ==> c[k] == m[k][i]
  {
    seq(|m|, k requires 0 <= k < |m| => m[k][i])
  }

  /** Row `i` of the clockwise rotation is column `i` of the input read bottom to top. */
  function Rotate(m: Matrix): (r: Matrix)
    requires IsSquare(m)
    ensures IsSquare(r) && |r| == |m|
    ensures forall i, j :: 0 <= i < |m| && 0 <= j < |m| ==> r[i][j] == m[|m| - 1 - j][i]
  {
    seq(|m|, i requires 0 <= i < |m| => Reverse(Column(m, i)))
  }

  /** The matrix after `k` clockwise quarter turns. */
  function RotateN(m: Matrix, k: nat): (r: Matrix)
    requires IsSquare(m)
    ensures IsSquare(r) && |r| == |m|
  {
    if k == 0 then m else Rotate(RotateN(m, k - 1))
  }

  /** The matrix mirrored through its centre: entry (i, j) comes from (n-1-i, n-1-j). */
  function HalfTurn(m: Matrix): (r: Matrix)
    requires IsSquare(m)
    ensures IsSquare(r) && |r| == |m|
  {
    seq(|m|, i requires 0 <= i < |m| =>
      seq(|m|, j requires 0 <= j < |m| => m[|m| - 1 - i][|m| - 1 - j]))
  }

  /** Two square matrices of one size with the same entries are equal. */
  lemma SameEntries(a: Matrix, b: Matrix)
    requires IsSquare(a) && IsSquare(b) && |a| == |b|
    requires forall i, j :: 0 <= i < |a| && 0 <= j < |a| ==> a[i][j] == b[i][j]
    ensures a == b
  {
    forall i | 0 <= i < |a|
      ensures a[i] == b[i]
    {
    }
  }

  /** Two quarter turns make a half turn. */
  lemma RotateTwice(m: Matrix)
    requires IsSquare(m)
    ensures Rotate(Rotate(m)) == HalfTurn(m)
  {
    var n := |m|;
    var q := Rotate(m);
    var r := Rotate(q);
    forall i, j | 0 <= i < n && 0 <= j < n
      ensures r[i][j] == HalfTurn(m)[i][j]
    {
      assert r[i][j] == q[n - 1 - j][i];
    }
    SameEntries(r, HalfTurn(m));
  }

  /** Two half turns undo each other. */
  lemma HalfTurnTwice(m: Matrix)
    requires IsSquare(m)
    ensures HalfTurn(HalfTurn(m)) == m
  {
    SameEntries(HalfTurn(HalfTurn(m)), m);
  }

  /** Four quarter turns give back the original matrix. */
  lemma RotateFourTimes(m: Matrix)
    requires IsSquare(m)
    ensures RotateN(m, 4) == m
  {
    var h := Rotate(Rotate(m));
    RotateTwice(m);
    RotateTwice(h);
    HalfTurnTwice(m);
    assert Rotate(Rotate(h)) == m;
    UnfoldFour(m);
  }

  lemma UnfoldFour(m: Matrix)
    requires IsSquare(m)
    ensures RotateN(m, 4) == Rotate(Rotate(Rotate(Rotate(m))))
  {
    assert RotateN(m, 1) == Rotate(m);
    assert RotateN(m, 2) == Rotate(Rotate(m));
    assert RotateN(m, 3) == Rotate(Rotate(Rotate(m)));
  }

  /** Every base shape of the table comes back after four quarter turns. */
  lemma BaseMatricesCycle()
    ensures forall k: PieceKind :: RotateN(BaseMatrix(k), 4) == BaseMatrix(k)
  {
    forall k: PieceKind
      ensures RotateN(BaseMatrix(k), 4) == BaseMatrix(k)
    {
      RotateFourTimes(BaseMatrix(k));
    }
  }

  /** The occupied cells of a square matrix, as (row, column) pairs. */
  function Occupied(m: Matrix): (cells: set<(int, int)>)
    requires IsSquare(m)
  {
    set i, j | 0 <= i < |m| && 0 <= j < |m| && m[i][j] == 1 :: (i, j)
  }

  /** Where cell `p` of an n-by-n matrix lands after a clockwise quarter turn. */
  function Turn(n: int, p: (int, int)): (q: (int, int)) {
    (p.1, n - 1 - p.0)
  }

  function TurnAll(n: int, cells: set<(int, int)>): (turned: set<(int, int)>) {
    set p | p in cells :: Turn(n, p)
  }

  /** Turning is injective, so it keeps the number of cells. */
  lemma {:induction false} TurnAllSize(n: int, cells: set<(int, int)>)
    ensures |TurnAll(n, cells)| == |cells|
    decreases |cells|
  {
    if cells != {} {
      var p :| p in cells;
      var rest := cells - {p};
      TurnAllSize(n, rest);
      assert TurnAll(n, cells) == TurnAll(n, rest) + {Turn(n, p)};
      assert Turn(n, p) !in TurnAll(n, rest);
    }
  }

  /** A rotation moves the occupied cells around without adding or losing any. */
  lemma RotateKeepsOccupied(m: Matrix)
    requires IsSquare(m)
    ensures Occupied(Rotate(m)) == TurnAll(|m|, Occupied(m))
    ensures |Occupied(Rotate(m))| == |Occupied(m)|
  {
    var n := |m|;
    var r := Rotate(m);
    forall q | q in Occupied(r)
      ensures q in TurnAll(n, Occupied(m))
    {
      var p := (n - 1 - q.1, q.0);
      assert p in Occupied(m);
      assert Turn(n, p) == q;
    }
    forall p | p in Occupied(m)
      ensures Turn(n, p) in Occupied(r)
    {
      assert r[p.1][n - 1 - p.0] == m[p.0][p.1];
    }
    TurnAllSize(n, Occupied(m));
  }

  /** Every base shape of the table has four occupied cells. */
  lemma BaseHasFourCells(k: PieceKind)
    ensures |Occupied(BaseMatrix(k))| == 4
  {
    var m := BaseMatrix(k);
    match k
    case I => assert Occupied(m) == {(1, 0), (1, 1), (1, 2), (1, 3)};
    case J => assert Occupied(m) == {(0, 0), (1, 0), (1, 1), (1, 2)};
    case L => assert Occupied(m) == {(0, 2), (1, 0), (1, 1), (1, 2)};
    case O => assert Occupied(m) == {(0, 0), (0, 1), (1, 0), (1, 1)};
    case Z => assert Occupied(m) == {(0, 0), (0, 1), (1, 1), (1, 2)};
    case S => assert Occupied(m) == {(0, 1), (0, 2), (1, 0), (1, 1)};
    case T => assert Occupied(m) == {(0, 1), (1, 0), (1, 1), (1, 2)};
  }

  /** However often a piece is turned, it keeps four occupied cells. */
  lemma {:induction false} EveryOrientationHasFourCells(k: PieceKind, n: nat)
    ensures |Occupied(RotateN(BaseMatrix(k), n))| == 4
  {
    if n == 0 {
      BaseHasFourCells(k);
    } else {
      EveryOrientationHasFourCells(k, n - 1);
      RotateKeepsOccupied(RotateN(BaseMatrix(k), n - 1));
    }
  }
}
