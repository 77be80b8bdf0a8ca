/**
 * The piece value type. A piece has a kind, a colour and a numeric weight; each kind fixes
 * one glyph for white and one for black, and `Str` renders a piece by its colour.
 */
module Pieces {

  datatype Kind = King | Queen | Rook | Bishop | Knight | Pawn

  /** Colours are plain strings: only "white" is singled out, anything else renders as black. */
  type Color = string

  const White: Color := "white"
  const Black: Color := "black"

  /**
   * `id` stands for object identity: two pieces are the same piece exactly when they are
   * equal, and the board builders give each piece they create a distinct id.
   */
  datatype Piece = Piece(kind: Kind, color: Color, value: int, id: nat)

  /** Glyph of the white piece of a kind. */
  function WhiteGlyph(k: Kind): char
  {
    match k
    case King => 'K'
    case Queen => 'Q'
    case Rook => 'R'
    case Bishop => 'B'
    case Knight => 'N'
    case Pawn => 'P'
  }

  /** Glyph of the black piece of a kind. */
  function BlackGlyph(k: Kind): char
  {
    match k
    case King => 'k'
    case Queen => 'q'
    case Rook => 'r'
    case Bishop => 'b'
    case Knight => 'n'
    case Pawn => 'p'
  }

  /** Weight each kind's constructor stores in `value`. */
  function KindValue(k: Kind): int
  {
    match k
    case King => 0
    case Queen => 9
    case Rook => 5
    case Bishop => 3
    case Knight => 3
    case Pawn => 1
  }

  /** A freshly constructed piece of a kind and colour, such as `Rook('white')`. */
  function NewPiece(k: Kind, color: Color, id: nat): Piece
  {
    Piece(k, color, KindValue(k), id)
  }

  /**
   * `str(piece)`: a piece renders as its kind's white glyph exactly when its colour is
   * "white", and as its kind's black glyph exactly when it is any other colour.
   */
  function Str(p: Piece): (c: char)
    ensures c == WhiteGlyph(p.kind) <==> p.color == White
    ensures c == BlackGlyph(p.kind) <==> p.color != White
  {
    if p.color == White then WhiteGlyph(p.kind) else BlackGlyph(p.kind)
  }

  /** The twelve glyphs are pairwise distinct and none is the empty-square marker. */
  lemma GlyphTable()
    ensures forall k :: WhiteGlyph(k) != '.' && BlackGlyph(k) != '.'
    ensures forall k1, k2 :: WhiteGlyph(k1) == WhiteGlyph(k2) ==> k1 == k2
    ensures forall k1, k2 :: BlackGlyph(k1) == BlackGlyph(k2) ==> k1 == k2
    ensures forall k1, k2 :: WhiteGlyph(k1) != BlackGlyph(k2)
  {
  }

  /**
   * Glyphs are per kind, not per instance: pieces of one kind whose colours agree on being
   * "white" render identically, whatever their weight or identity.
   */
  lemma StrDependsOnKindAndSide(p: Piece, q: Piece)
    requires p.kind == q.kind && (p.color == White <==> q.color == White)
    ensures Str(p) == Str(q)
  {
  }

  /** Str determines the kind and the side of a piece. */
  lemma StrInjective(p: Piece, q: Piece)
    requires Str(p) == Str(q)
    ensures p.kind == q.kind && (p.color == White <==> q.color == White)
  {
    GlyphTable();
  }
}
