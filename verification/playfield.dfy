/** The 20-row, 10-column field of locked cells: placement check, locking and row
    clearing (tetris.js, `isValidMove` and `placeTetromino`). */
module Playfield {
  import opened Shapes

  const Rows := 20
  const Cols := 10

  /** A field cell: the JS value 0, or the name of the kind locked there. */
  datatype Cell = Empty | Block(kind: PieceKind)

  type Row = seq<Cell>
  type Grid = seq<Row>

  /** Row 0 is the top; every row has `Cols` cells. */
  predicate WellFormed(g: Grid) {
    |g| == Rows && forall i :: 0 <= i < |g| ==> |g[i]| == Cols
  }

  function EmptyRow(): (r: Row)
    ensures |r| == Cols && !IsFull(r)
  {
    var r := seq(Cols, _ => Empty);
    assert r[0] == Empty;
    r
  }

  function EmptyGrid(): (g: Grid)
    ensures WellFormed(g)
    ensures forall i, j :: 0 <= i < Rows && 0 <= j < Cols ==> g[i][j] == Empty
  {
    seq(Rows, _ => EmptyRow())
  }

  // ---------------------------------------------------------------------------
  // Placement check
  // ---------------------------------------------------------------------------

  /** Entry (r, c) of `m`, with the matrix's top-left at (row, col), is occupied and
      falls off a side of the field, below its bottom, or onto a locked cell. There
      is no test against the top edge: `row` is never negative. */
  predicate Blocked(g: Grid, m: Matrix, row: int, col: int, r: int, c: int)
    requires WellFormed(g) && row >= 0
    requires 0 <= r < |m| && 0 <= c < |m[r]|
  {
    m[r][c] == 1 &&
    (col + c < 0 || col + c >= Cols || row + r >= Rows || g[row + r][col + c] != Empty)
  }

  /** The declarative meaning of a legal placement: no entry of the matrix is blocked. */
  predicate Fits(g: Grid, m: Matrix, row: int, col: int)
    requires WellFormed(g) && row >= 0
  {
    forall r, c :: 0 <= r < |m| && 0 <= c < |m[r]| ==> !Blocked(g, m, row, col, r, c)
  }

  /** Every occupied entry of `m` lies on the field. */
  predicate InBounds(m: Matrix, row: int, col: int) {
    forall r, c :: 0 <= r < |m| && 0 <= c < |m[r]| && m[r][c] == 1 ==>
      0 <= row + r < Rows && 0 <= col + c < Cols
  }

  /** The scan of `isValidMove`: rows top to bottom, each row left to right, false
      at the first blocked entry. */
  function IsValidMove(g: Grid, m: Matrix, row: int, col: int): (ok: bool)
    requires WellFormed(g) && row >= 0
    ensures ok <==> Fits(g, m, row, col)
    ensures ok ==> InBounds(m, row, col)
  {
    var ok := RowsClear(g, m, row, col, 0);
    if ok then FitsInBounds(g, m, row, col); ok else ok
  }

  /** A legal placement at a non-negative row keeps the piece on the field. */
  lemma FitsInBounds(g: Grid, m: Matrix, row: int, col: int)
    requires WellFormed(g) && row >= 0 && Fits(g, m, row, col)
    ensures InBounds(m, row, col)
  {
    forall r, c | 0 <= r < |m| && 0 <= c < |m[r]| && m[r][c] == 1
      ensures 0 <= row + r < Rows && 0 <= col + c < Cols
    {
      assert !Blocked(g, m, row, col, r, c);
    }
  }

  function RowsClear(g: Grid, m: Matrix, row: int, col: int, r: nat): (ok: bool)
    requires WellFormed(g) && row >= 0 && r <= |m|
    ensures ok <==> forall r', c :: r <= r' < |m| && 0 <= c < |m[r']| ==> !Blocked(g, m, row, col, r', c)
    decreases |m| - r
  {
    if r == |m| then true
    else CellsClear(g, m, row, col, r, 0) && RowsClear(g, m, row, col, r + 1)
  }

  function CellsClear(g: Grid, m: Matrix, row: int, col: int, r: nat, c: nat): (ok: bool)
    requires WellFormed(g) && row >= 0 && r < |m| && c <= |m[r]|
    ensures ok <==> forall c' :: c <= c' < |m[r]| ==> !Blocked(g, m, row, col, r, c')
    decreases |m[r]| - c
  {
    if c == |m[r]| then true
    else !Blocked(g, m, row, col, r, c) && CellsClear(g, m, row, col, r, c + 1)
  }

  // ---------------------------------------------------------------------------
  // Locking a piece into the field
  // ---------------------------------------------------------------------------

  /** Field cell (i, j) is under an occupied entry of `m` placed at (row, col). */
  predicate Covers(m: Matrix, row: int, col: int, i: int, j: int) {
    0 <= i - row < |m| && 0 <= j - col < |m[i - row]| && m[i - row][j - col] == 1
  }

  function SetCell(g: Grid, i: int, j: int, v: Cell): (g': Grid)
    requires WellFormed(g) && 0 <= i < Rows && 0 <= j < Cols
    ensures WellFormed(g')
    ensures forall i', j' :: 0 <= i' < Rows && 0 <= j' < Cols ==>
      g'[i'][j'] == if i' == i && j' == j then v else g[i'][j']
  {
    g[i := g[i][j := v]]
  }

  /** Writes `kind` into the field under every occupied entry of `m` placed at (row, col),
      and changes nothing else. */
  function Lock(g: Grid, m: Matrix, kind: PieceKind, row: int, col: int): (g': Grid)
    requires WellFormed(g) && InBounds(m, row, col)
    ensures WellFormed(g')
    ensures forall i, j :: 0 <= i < Rows && 0 <= j < Cols ==>
      g'[i][j] == if Covers(m, row, col, i, j) then Block(kind) else g[i][j]
  {
    LockRows(g, m, kind, row, col, 0)
  }

  function LockRows(g: Grid, m: Matrix, kind: PieceKind, row: int, col: int, r: nat): (g': Grid)
    requires WellFormed(g) && InBounds(m, row, col) && r <= |m|
    ensures WellFormed(g')
    ensures forall i, j :: 0 <= i < Rows && 0 <= j < Cols ==>
      g'[i][j] == if Covers(m, row, col, i, j) && i - row >= r then Block(kind) else g[i][j]
    decreases |m| - r
  {
    if r == |m| then g
    else LockRows(LockCells(g, m, kind, row, col, r, 0), m, kind, row, col, r + 1)
  }

  function LockCells(g: Grid, m: Matrix, kind: PieceKind, row: int, col: int, r: nat, c: nat): (g': Grid)
    requires WellFormed(g) && InBounds(m, row, col) && r < |m| && c <= |m[r]|
    ensures WellFormed(g')
    ensures forall i, j :: 0 <= i < Rows && 0 <= j < Cols ==>
      g'[i][j] == if i == row + r && c <= j - col < |m[r]| && m[r][j - col] == 1 then Block(kind) else g[i][j]
    decreases |m[r]| - c
  {
    if c == |m[r]| then g
    else
      var g1 := if m[r][c] == 1 then SetCell(g, row + r, col + c, Block(kind)) else g;
      LockCells(g1, m, kind, row, col, r, c + 1)
  }

  // ---------------------------------------------------------------------------
  // Clearing full rows
  // ---------------------------------------------------------------------------

  /** A row is full when none of its cells is empty. */
  predicate IsFull(row: Row) {
    forall j :: 0 <= j < |row| ==> row[j] != Empty
  }

  /** The number of full rows in `rs`. */
  function CountFull(rs: seq<Row>): (n: nat)
    ensures n <= |rs|
  {
    if |rs| == 0 then 0
    else CountFull(rs[..|rs| - 1]) + if IsFull(rs[|rs| - 1]) then 1 else 0
  }

  /** The rows of `rs` that are not full, in their original order. */
  function Remaining(rs: seq<Row>): (kept: seq<Row>)
    ensures |kept| + CountFull(rs) == |rs|
    ensures forall k :: 0 <= k < |kept| ==> !IsFull(kept[k]) && kept[k] in rs
  {
    if |rs| == 0 then []
    else Remaining(rs[..|rs| - 1]) + if IsFull(rs[|rs| - 1]) then [] else [rs[|rs| - 1]]
  }

  function Empties(n: nat): (rs: seq<Row>)
    ensures |rs| == n
  {
    seq(n, _ => EmptyRow())
  }

  /** An empty row put on top adds no full row and is kept. */
  lemma {:induction false} PrependEmpty(q: seq<Row>)
    ensures CountFull([EmptyRow()] + q) == CountFull(q)
    ensures Remaining([EmptyRow()] + q) == [EmptyRow()] + Remaining(q)
  {
    var p := [EmptyRow()] + q;
    if |q| > 0 {
      PrependEmpty(q[..|q| - 1]);
      assert p[..|p| - 1] == [EmptyRow()] + q[..|q| - 1];
      assert p[|p| - 1] == q[|q| - 1];
    } else {
      assert p[..|p| - 1] == [];
    }
  }

  /** One step of the scan at a full row `row`: it is spliced out and an empty row
      goes on top, so the unscanned prefix loses one full row and gains an empty row. */
  lemma FullRowStep(g: seq<Row>, row: nat)
    requires row < |g| && IsFull(g[row])
    ensures var g' := [EmptyRow()] + g[..row] + g[row + 1..];
      && g'[..row + 1] == [EmptyRow()] + g[..row]
      && g'[row + 1..] == g[row + 1..]
      && CountFull(g'[..row + 1]) + 1 == CountFull(g[..row + 1])
      && Empties(CountFull(g'[..row + 1])) + Remaining(g'[..row + 1])
         == Empties(CountFull(g[..row + 1])) + Remaining(g[..row + 1])
  {
    var g' := [EmptyRow()] + g[..row] + g[row + 1..];
    assert g'[..row + 1] == [EmptyRow()] + g[..row];
    assert g'[row + 1..] == g[row + 1..];
    PrependEmpty(g[..row]);
    assert g[..row + 1][..row] == g[..row];
    var c := CountFull(g[..row]);
    assert Empties(c) + [EmptyRow()] == Empties(c + 1);
  }

  /** The backward scan of `placeTetromino`, at index `row`: a full row is spliced out,
      an empty row is put on top and the same index is looked at again; any other row
      moves the index up. Rows below `row` have already been scanned. */
  function ClearFrom(g: seq<Row>, row: int): (r: seq<Row>)
    requires -1 <= row < |g|
    ensures r == Empties(CountFull(g[..row + 1])) + Remaining(g[..row + 1]) + g[row + 1..]
    decreases CountFull(g[..row + 1]), row + 1
  {
    if row < 0 then
      assert g[..0] == [];
      g
    else if IsFull(g[row]) then
      FullRowStep(g, row);
      ClearFrom([EmptyRow()] + g[..row] + g[row + 1..], row)
    else
      assert g[..row + 1][..row] == g[..row];
      assert g[row..] == [g[row]] + g[row + 1..];
      ClearFrom(g, row - 1)
  }

  /** Clearing a field removes every full row, keeps the others in order at the bottom,
      and puts as many empty rows on top as rows were removed. */
  function ClearRows(g: Grid): (r: Grid)
    requires WellFormed(g)
    ensures WellFormed(r)
    ensures r == Empties(CountFull(g)) + Remaining(g)
    ensures forall i :: 0 <= i < |r| ==> !IsFull(r[i])
  {
    assert g[..Rows] == g;
    var r := ClearFrom(g, Rows - 1);
    assert forall i :: 0 <= i < |r| ==> r[i] in Empties(CountFull(g)) || r[i] in Remaining(g);
    r
  }

  /** A sequence of rows none of which is full is left as it is. */
  lemma {:induction false} NoFullRows(rs: seq<Row>)
    requires forall k :: 0 <= k < |rs| ==> !IsFull(rs[k])
    ensures CountFull(rs) == 0 && Remaining(rs) == rs
  {
    if |rs| > 0 {
      NoFullRows(rs[..|rs| - 1]);
      assert rs == rs[..|rs| - 1] + [rs[|rs| - 1]];
    }
  }

  /** Clearing twice is clearing once. */
  lemma ClearRowsIdempotent(g: Grid)
    requires WellFormed(g)
    ensures ClearRows(ClearRows(g)) == ClearRows(g)
  {
    var r := ClearRows(g);
    NoFullRows(r);
  }
}
