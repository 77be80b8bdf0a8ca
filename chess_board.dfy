/**
 * The chess board: the two builders that fill a 64-slot list (the starting position and
 * the decoder of a textual board) and the `ChessBoard` object, whose slots are updated in
 * place and queried. Each operation is proved against the reference definitions of
 * `BoardModel`.
 */
module ChessBoards {
  import opened Wrappers
  import opened Squares
  import opened Pieces
  import opened BoardModel

  /** Puts a fresh piece of `kind` and `color` on `sq`; its identity is the slot it fills. */
  method Place(a: array<Slot>, sq: Square, kind: Kind, color: Color)
    requires a.Length == BoardSize
    modifies a
    ensures a[SquareToIndex(sq)] == Some(NewPiece(kind, color, SquareToIndex(sq)))
    ensures forall j :: 0 <= j < BoardSize && j != SquareToIndex(sq) ==> a[j] == old(a[j])
  {
    var i := SquareToIndex(sq);
    a[i] := Some(NewPiece(kind, color, i));
  }

  /** Fills rank `rank` with R, N, B, Q, K, B, N, R of `color`, file a to file h. */
  method PlaceBackRank(a: array<Slot>, rank: Coord, color: Color)
    requires a.Length == BoardSize
    modifies a
    ensures forall j :: 0 <= j < BoardSize ==>
      a[j] == if 8 * rank <= j < 8 * rank + 8 then Some(NewPiece(BackRank(j - 8 * rank), color, j)) else old(a[j])
  {
    Place(a, Square(0, rank), Rook, color);
    Place(a, Square(1, rank), Knight, color);
    Place(a, Square(2, rank), Bishop, color);
    Place(a, Square(3, rank), Queen, color);
    Place(a, Square(4, rank), King, color);
    Place(a, Square(5, rank), Bishop, color);
    Place(a, Square(6, rank), Knight, color);
    Place(a, Square(7, rank), Rook, color);
  }

  /** Builds the starting position: pawns by loops over their slots, then the back ranks. */
  method CreateDefaultBoard() returns (board: seq<Slot>)
    ensures board == DefaultLayout()
  {
    var a := new Slot[BoardSize](_ => None);
    for i := 8 to 16
      invariant forall j :: 0 <= j < BoardSize ==>
        a[j] == if 8 <= j < i then Some(NewPiece(Pawn, White, j)) else None
    {
      a[i] := Some(NewPiece(Pawn, White, i));
    }
    for i := 48 to 56
      invariant forall j :: 0 <= j < BoardSize ==>
        a[j] == if 8 <= j < 16 then Some(NewPiece(Pawn, White, j))
                else if 48 <= j < i then Some(NewPiece(Pawn, Black, j))
                else None
    {
      a[i] := Some(NewPiece(Pawn, Black, i));
    }
    PlaceBackRank(a, 0, White);
    PlaceBackRank(a, 7, Black);
    board := a[..];
    assert forall j :: 0 <= j < BoardSize ==> board[j] == DefaultLayout()[j];
  }

  /**
   * Decodes a textual board character by character into slots 0..63, stopping at the
   * first character that is neither the empty marker nor a glyph.
   */
  method CreateBoardFromStr(boardStr: string) returns (r: Result<seq<Slot>, BoardError>)
    ensures r == DecodeBoard(boardStr)
  {
    if |boardStr| != BoardSize {
      return Failure(InvalidBoardSize(|boardStr|));
    }
    var a := new Slot[BoardSize](_ => None);
    for i := 0 to BoardSize
      invariant forall j :: 0 <= j < i ==> IsBoardChar(boardStr[j])
      invariant forall j :: 0 <= j < BoardSize ==>
        a[j] == if j < i then DecodeSlot(boardStr[j], j) else None
    {
      var c := boardStr[i];
      if c == EmptyChar {
      } else if DecodeGlyph(c).Some? {
        a[i] := DecodeSlot(c, i);
      } else {
        assert FirstBadChar(boardStr) == Some(i);
        return Failure(UnrecognizedGlyph(i, c));
      }
    }
    assert FirstBadChar(boardStr) == None;
    r := Success(a[..]);
    assert a[..] == DecodeBoard(boardStr).value;
  }

  /** The empty board. */
  function EmptyLayout(): (b: seq<Slot>)
    ensures |b| == BoardSize && forall i :: 0 <= i < BoardSize ==> b[i] == None
  {
    seq(BoardSize, _ => None)
  }

  class ChessBoard {
    /** Slot `SquareToIndex(sq)` holds the occupant of square `sq`. */
    const squares: array<Slot>

    ghost predicate Valid()
    {
      squares.Length == BoardSize
    }

    /** The slots as a value. */
    function Slots(): (b: seq<Slot>)
      reads squares
      ensures |b| == squares.Length
    {
      squares[..]
    }

    constructor FromSlots(init: seq<Slot>)
      requires |init| == BoardSize
      ensures Valid() && fresh(squares) && Slots() == init
    {
      squares := new Slot[BoardSize](i requires 0 <= i < BoardSize => init[i]);
    }

    /** The occupant of a square, or None. */
    function GetPiece(sq: Square): (r: Slot)
      reads squares
      requires Valid()
      ensures r == Slots()[SquareToIndex(sq)]
    {
      squares[SquareToIndex(sq)]
    }

    /** Whether a square has no occupant. */
    function IsEmptySquare(sq: Square): (r: bool)
      reads squares
      requires Valid()
      ensures r <==> GetPiece(sq).None?
      ensures r <==> SlotChar(GetPiece(sq)) == EmptyChar
    {
      GetPiece(sq) == None
    }

    /** All pieces in ascending slot order, only those of `color` when it is given. */
    function GetPieces(color: Option<Color>): (r: seq<Piece>)
      reads squares
      requires Valid()
      ensures r == Occupants(Slots(), color)
      ensures forall p :: p in r <==> exists i :: 0 <= i < BoardSize && squares[i] == Some(p) && Keeps(p, color)
    {
      OccupantsMembers(squares[..], color);
      Occupants(squares[..], color)
    }

    /** The lowest square whose slot holds exactly `target`, or None. */
    method GetSquare(target: Slot) returns (r: Option<Square>)
      requires Valid()
      ensures r.Some? ==> GetPiece(r.value) == target
      ensures r.Some? ==> forall j :: 0 <= j < SquareToIndex(r.value) ==> squares[j] != target
      ensures r.None? <==> forall j :: 0 <= j < BoardSize ==> squares[j] != target
    {
      for i := 0 to BoardSize
        invariant forall j :: 0 <= j < i ==> squares[j] != target
      {
        if squares[i] == target {
          return Some(IndexToSquare(i));
        }
      }
      return None;
    }

    /**
     * The square of the first King among the pieces of `color`, that is, of the lowest
     * slot holding a King of that colour; None if there is none.
     */
    method GetKingSquare(color: Color) returns (r: Option<Square>)
      requires Valid()
      ensures r.Some? ==> IsKingOf(GetPiece(r.value), color)
      ensures r.Some? ==> forall j :: 0 <= j < SquareToIndex(r.value) ==> !IsKingOf(squares[j], color)
      ensures r.None? <==> forall j :: 0 <= j < BoardSize ==> !IsKingOf(squares[j], color)
      ensures r.Some? <==> KingIndex(Slots(), color).Some?
      ensures r.Some? ==> SquareToIndex(r.value) == KingIndex(Slots(), color).value
    {
      var pieces := GetPieces(Some(color));
      for k := 0 to |pieces|
        invariant forall j :: 0 <= j < k ==> pieces[j].kind != King
      {
        if pieces[k].kind == King {
          FirstKingOfOccupants(Slots(), color, k);
          assert pieces[k] in pieces;
          r := GetSquare(Some(pieces[k]));
          return;
        }
      }
      return None;
    }

    /** Puts `piece` (or nothing) on `sq`; no other square changes. */
    method SetSquare(sq: Square, piece: Slot)
      requires Valid()
      modifies squares
      ensures Slots() == old(Slots())[SquareToIndex(sq) := piece]
      ensures GetPiece(sq) == piece
      ensures forall t :: t != sq ==> GetPiece(t) == old(GetPiece(t))
    {
      squares[SquareToIndex(sq)] := piece;
      forall t | t != sq
        ensures SquareToIndex(t) != SquareToIndex(sq)
      {
        if SquareToIndex(t) == SquareToIndex(sq) {
          SquareToIndexInjective(t, sq);
        }
      }
    }

    /**
     * Sets `to` to whatever is on `from`, then clears `from`; when the two are the same
     * square, that square ends up empty.
     */
    method Move(from: Square, to: Square)
      requires Valid()
      modifies squares
      ensures Slots() == Moved(old(Slots()), SquareToIndex(from), SquareToIndex(to))
      ensures GetPiece(from) == None
      ensures to != from ==> GetPiece(to) == old(GetPiece(from))
      ensures forall t :: t != from && t != to ==> GetPiece(t) == old(GetPiece(t))
    {
      SetSquare(to, GetPiece(from));
      SetSquare(from, None);
    }

    /** Exchanges the occupants of two squares; no other square changes. */
    method SwapPieces(square1: Square, square2: Square)
      requires Valid()
      modifies squares
      ensures Slots() == Swapped(old(Slots()), SquareToIndex(square1), SquareToIndex(square2))
      ensures GetPiece(square1) == old(GetPiece(square2)) && GetPiece(square2) == old(GetPiece(square1))
      ensures forall t :: t != square1 && t != square2 ==> GetPiece(t) == old(GetPiece(t))
    {
      var s1i := SquareToIndex(square1);
      var s2i := SquareToIndex(square2);
      squares[s1i], squares[s2i] := squares[s2i], squares[s1i];
      forall t | t != square1 && t != square2
        ensures SquareToIndex(t) != s1i && SquareToIndex(t) != s2i
      {
        if SquareToIndex(t) == s1i {
          SquareToIndexInjective(t, square1);
        }
        if SquareToIndex(t) == s2i {
          SquareToIndexInjective(t, square2);
        }
      }
    }

    /**
     * Writes the board as 64 characters. From white's side rows 7 down to 0 are written,
     * each from column 0 to 7; from any other side rows 0 up to 7, each from column 7 to 0.
     */
    method ToString(playingColor: Color) returns (boardStr: string)
      requires Valid()
      ensures boardStr == EncodeBoard(Slots(), playingColor)
    {
      ghost var e := EncodeBoard(Slots(), playingColor);
      var white := playingColor == White;
      boardStr := "";
      for rowStep := 0 to 8
        invariant |boardStr| == 8 * rowStep
        invariant forall k :: 0 <= k < |boardStr| ==> boardStr[k] == e[k]
      {
        var row := if white then 7 - rowStep else rowStep;
        for colStep := 0 to 8
          invariant |boardStr| == 8 * rowStep + colStep
          invariant forall k :: 0 <= k < |boardStr| ==> boardStr[k] == e[k]
        {
          var col := if white then colStep else 7 - colStep;
          var squareIndex := col + 8 * row;
          var sq := IndexToSquare(squareIndex);
          var piece := GetPiece(sq);
          var k := 8 * rowStep + colStep;
          assert k / 8 == rowStep && k % 8 == colStep;
          assert SourceSlot(k, playingColor) == squareIndex;
          if piece.None? {
            boardStr := boardStr + [EmptyChar];
          } else if piece.value.color == White {
            boardStr := boardStr + [WhiteGlyph(piece.value.kind)];
          } else {
            boardStr := boardStr + [BlackGlyph(piece.value.kind)];
          }
        }
      }
    }
  }

  /**
   * Creating a board: empty when `empty` is set (even if a text is given), else decoded
   * from `boardStr` when one is given, else the starting position.
   */
  method NewChessBoard(boardStr: Option<string>, empty: bool) returns (r: Result<ChessBoard, BoardError>)
    ensures r.Success? ==> fresh(r.value.squares) && r.value.Valid()
    ensures empty ==> r.Success? && r.value.Slots() == EmptyLayout()
    ensures !empty && boardStr.Some? ==> (r.Success? <==> DecodeBoard(boardStr.value).Success?)
    ensures !empty && boardStr.Some? && r.Success? ==> r.value.Slots() == DecodeBoard(boardStr.value).value
    ensures !empty && boardStr.Some? && r.Failure? ==> r.error == DecodeBoard(boardStr.value).error
    ensures !empty && boardStr.None? ==> r.Success? && r.value.Slots() == DefaultLayout()
  {
    if empty {
      var board := new ChessBoard.FromSlots(EmptyLayout());
      return Success(board);
    } else if boardStr.Some? {
      var decoded := CreateBoardFromStr(boardStr.value);
      if decoded.Failure? {
        return Failure(decoded.error);
      }
      var board := new ChessBoard.FromSlots(decoded.value);
      return Success(board);
    } else {
      var layout := CreateDefaultBoard();
      var board := new ChessBoard.FromSlots(layout);
      return Success(board);
    }
  }
}
