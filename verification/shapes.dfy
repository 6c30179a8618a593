/** The seven piece kinds of the game and their base shapes (tetris.js, the `tetrominoes` table). */
module Shapes {

  datatype PieceKind = I | J | L | O | Z | S | T

  /** A matrix entry, written 0 or 1 as in the table; 1 marks an occupied cell. */
  type Bit = b: int | 0 <= b <= 1

  /** A piece shape as a list of rows; the top-left entry is the piece's origin. */
  type Matrix = seq<seq<Bit>>

  predicate IsSquare(m: Matrix) {
    forall r :: 0 <= r < |m| ==> |m[r]| == |m|
  }

  /** The keys of the table in declaration order, which is the order the bag is refilled in. */
  const AllKinds: seq<PieceKind> := [I, J, L, O, Z, S, T]

  /** The base orientation of each kind: a 2x2, 3x3 or 4x4 matrix with four occupied cells. */
  function BaseMatrix(k: PieceKind): (m: Matrix)
    ensures IsSquare(m)
    ensures 2 <= |m| <= 4
    ensures k == I <==> |m| == 4
    ensures k == O <==> |m| == 2
  {
    match k
    case I => [[0, 0, 0, 0],
               [1, 1, 1, 1],
               [0, 0, 0, 0],
               [0, 0, 0, 0]]
    case J => [[1, 0, 0],
               [1, 1, 1],
               [0, 0, 0]]
    case L => [[0, 0, 1],
               [1, 1, 1],
               [0, 0, 0]]
    case O => [[1, 1],
               [1, 1]]
    case Z => [[1, 1, 0],
               [0, 1, 1],
               [0, 0, 0]]
    case S => [[0, 1, 1],
               [1, 1, 0],
               [0, 0, 0]]
    case T => [[0, 1, 0],
               [1, 1, 1],
               [0, 0, 0]]
  }

  /** The table lists every kind exactly once. */
  lemma AllKindsOnce()
    ensures |AllKinds| == 7
    ensures forall k: PieceKind :: multiset(AllKinds)[k] == 1
  {
    forall k: PieceKind
      ensures multiset(AllKinds)[k] == 1
    {
      assert AllKinds == [I] + [J] + [L] + [O] + [Z] + [S] + [T];
      match k
      case I => {} case J => {} case L => {} case O => {} case Z => {} case S => {} case T => {}
    }
  }
}
