/**
 * Square addressing: a square is a file a..h and a rank 1..8, both stored 0-based,
 * and its slot in the board array is `rank * 8 + file`, so a1 is slot 0 and h8 slot 63.
 * The translation between square labels such as "e4" and these coordinates belongs to
 * the board utilities, which are not part of this model.
 */
module Squares {

  /** A 0-based file (0 is file a) or rank (0 is rank 1). */
  type Coord = i: int | 0 <= i < 8

  /** A slot of the 64-slot board array. */
  type Index = i: int | 0 <= i < 64

  datatype Square = Square(file: Coord, rank: Coord)

  /** The slot of a square: its rank is the slot's row of eight, its file the column. */
  function SquareToIndex(sq: Square): (i: Index)
    ensures i / 8 == sq.rank && i % 8 == sq.file
  {
    sq.rank * 8 + sq.file
  }

  /** The square of a slot; it is the inverse of `SquareToIndex` on the 64 slots. */
  function IndexToSquare(i: Index): (sq: Square)
    ensures SquareToIndex(sq) == i
  {
    Square(i % 8, i / 8)
  }

  /** Square to index and back is the identity on the 64 squares. */
  lemma SquareRoundTrip(sq: Square)
    ensures IndexToSquare(SquareToIndex(sq)) == sq
  {
  }

  /** Distinct squares occupy distinct slots. */
  lemma SquareToIndexInjective(a: Square, b: Square)
    requires SquareToIndex(a) == SquareToIndex(b)
    ensures a == b
  {
    SquareRoundTrip(a);
    SquareRoundTrip(b);
  }
}
