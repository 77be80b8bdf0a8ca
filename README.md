# chesslib board model in Dafny

This project models the board and piece core of the chesslib library. A board is a fixed
array of 64 slots. Each slot holds nothing or one piece, and a piece has a kind (King, Queen,
Rook, Bishop, Knight, Pawn), a colour and a weight. The model covers these operations:

- building the starting position;
- decoding a 64-character board text, one character per slot, where `.` marks an empty
  square and twelve glyphs stand for the pieces;
- the object operations: looking up a square, listing pieces, finding a piece's square or a
  King's square, setting, moving and swapping slots, and writing the board out from either
  side's perspective.

Modules:

- `Wrappers` (wrappers.dfy): `Option` and `Result`.
- `Squares` (squares.dfy): a square is `Square(file, rank)` with 0-based coordinates. Its slot
  is `rank * 8 + file`, so a1 is slot 0 and h8 slot 63. Both round trips are proved.
- `Pieces` (pieces.dfy): the `Piece` value, the glyph table and `Str`, which is `str(piece)`.
- `BoardModel` (board_model.dfy): the board as a value (`seq<Slot>`), with the reference
  definitions (`DecodeBoard`, `EncodeBoard`, `DefaultLayout`, `Occupants`, `KingIndex`,
  `Moved`, `Swapped`) and the laws that relate them.
- `ChessBoards` (chess_board.dfy): the builders `CreateDefaultBoard` and `CreateBoardFromStr`,
  written as loops over a local array. It also holds the class `ChessBoard` over an
  `array<Slot>`, whose methods change slots in place, and the factory `NewChessBoard`, which
  models the constructor. Every method is proved against the `BoardModel` definitions.

Modelling choices:

- Python compares pieces by object identity (`is`). Here a piece carries an `id`. Both
  builders give the piece they create on slot `i` the id `i`, so no piece of a freshly built
  board is equal to another (`DefaultPiecesDistinct` for the starting position,
  `DecodedPiecesDistinct` for a decoded board).
  Equality of `Piece` values then plays the part of identity.
- Colours are strings, as in the source. Only `"white"` is singled out: `str()`, `to_string`
  and the `to_string` perspective treat every other string as black.
- `Piece.color` and `Piece.value` (piece.py:5-11) are fields of an immutable datatype, so
  reading them returns what was stored, and nothing can change them. `Pieces.NewPiece` stands
  for a subclass constructor such as `Rook('white')`.
- The glyph letters are K/k, Q/q, R/r, B/b, N/n, P/p. `GlyphTable` proves that the twelve are
  distinct and that none is `.`.
- `get_square` accepts nothing as its argument as well, as the Python does. It then finds the
  first empty slot.

Two behaviours of the code worth knowing:

- Decoding a text and encoding it again is not the identity, from either side. The decoder
  puts character `i` into slot `i`, so it reads a1 first. `to_string('white')` writes rank 8
  first. `WhiteEncodingOfDecoded` shows that the white encoding of a decoded text is the text
  with its eight ranks in reverse order. `OtherEncodingOfDecoded` shows that any other
  perspective reverses each rank in place. `DecodeStartWhiteViewFlips` shows the effect on the
  standard starting text written from white's side: once decoded, it has the black King on e1.
- `get_king_square` returns the square of the first King of that colour in slot order, even
  when the board holds several. `GetKingSquare` is proved to return the lowest such slot.

## Model

| member | source | states |
|---|---|---|
| `Squares.SquareToIndex` | chesslib/chess_board.py:107-108 | a square's slot lies in the row of eight given by its rank and the column given by its file |
| `Squares.IndexToSquare` | chesslib/chess_board.py:166-169 | the square of a slot index has that index as its slot, for all 64 slots |
| `Squares.SquareRoundTrip` | chesslib/chess_board.py:107-108 | turning a square into its slot index and back gives the same square |
| `Squares.SquareToIndexInjective` | chesslib/chess_board.py:150-153 | two squares with the same slot index are the same square |
| `Pieces.GlyphTable` | chesslib/piece.py:13-21 | the per-kind white and black glyphs are twelve distinct characters, none of them `.` |
| `Pieces.Str` | chesslib/piece.py:27-30 | `str(piece)` is the kind's white glyph exactly when the colour is "white", and its black glyph exactly when it is any other colour |
| `Pieces.StrDependsOnKindAndSide` | chesslib/piece.py:13-21 | two pieces of the same kind on the same side render identically, whatever their weight or identity |
| `Pieces.StrInjective` | chesslib/piece.py:27-30 | the rendered glyph determines the kind and whether the piece is white |
| `BoardModel.SlotChar` | chesslib/chess_board.py:171-176 | the character written for a slot is `.` exactly when the slot is empty, `str()` of the occupant otherwise, and always in the board alphabet |
| `BoardModel.DecodeGlyph` | chesslib/chess_board.py:63-86 | exactly the twelve glyphs decode; each decodes to white or black, and to a kind whose glyph for that side is the character |
| `BoardModel.DecodeGlyphOfStr` | chesslib/chess_board.py:63-86 | the decoder maps the glyph of any piece back to its kind, and to white or black by its side |
| `BoardModel.StrOfDecodeGlyph` | chesslib/chess_board.py:63-86 | a character the decoder accepts as a glyph is not `.`, decodes to colour white or black, and is `str()` of the piece it decodes to |
| `BoardModel.DecodeSlot` | chesslib/chess_board.py:61-86 | one accepted character decodes to an empty slot exactly when it is `.`; otherwise it decodes to a white or black piece with the given identity whose glyph is that character |
| `BoardModel.FirstBadChar` | chesslib/chess_board.py:60-93 | finds the first position whose character is outside the board alphabet, with every earlier character inside it; it finds none exactly when all characters are inside |
| `BoardModel.DecodedPiecesDistinct` | chesslib/chess_board.py:60-86 | no piece of a decoded board stands on two slots |
| `BoardModel.DecodeBoard` | chesslib/chess_board.py:54-95 | the size error comes exactly when the length is not 64 and carries that length. The glyph error names the first character outside the alphabet and its position. Success comes exactly when the length is 64 and every character is in the alphabet; slot `i` is then empty iff character `i` is `.`, and otherwise holds a piece whose glyph is character `i` |
| `BoardModel.EncodeWhiteAt` | chesslib/chess_board.py:155-169 | from white's side, slot `col + 8*row` is written at output position `(7-row)*8 + col` |
| `BoardModel.EncodeOtherAt` | chesslib/chess_board.py:155-169 | from any other side, slot `col + 8*row` is written at output position `row*8 + (7-col)` |
| `BoardModel.EncodeBoard` | chesslib/chess_board.py:155-178 | the text written from any perspective has 64 characters, each `.` or a glyph |
| `BoardModel.SourceSlotInvolution` | chesslib/chess_board.py:155-166 | each perspective's traversal is its own inverse: reading the output position of an output position returns to it |
| `BoardModel.WhiteEncodingOfDecoded` | chesslib/chess_board.py:155-178 | writing a decoded text from white's side gives that text with its eight 8-character ranks in reverse order |
| `BoardModel.OtherEncodingOfDecoded` | chesslib/chess_board.py:155-178 | writing a decoded text from any other side gives that text with each rank reversed in place |
| `BoardModel.DecodeOfEncoding` | chesslib/chess_board.py:54-95 | once the ranks are put back in slot order, a written board always decodes, to a board with the same empty squares and, on each occupied square, a piece of the same kind and side |
| `BoardModel.DefaultLayout` | chesslib/chess_board.py:24-51 | the starting position has 64 slots; its occupied slots below 16 are white, those from 48 on are black, and each piece's identity is its slot |
| `BoardModel.DefaultPawns` | chesslib/chess_board.py:27-31 | in the starting position the white pawns are exactly on slots 8..15 and the black pawns exactly on slots 48..55 |
| `BoardModel.DefaultBackRanks` | chesslib/chess_board.py:33-49 | a1..h1 hold white R, N, B, Q, K, B, N, R and a8..h8 the same kinds in black |
| `BoardModel.DefaultEmptyMiddle` | chesslib/chess_board.py:24-51 | the empty slots of the starting position are exactly slots 16..47 |
| `BoardModel.DefaultPiecesDistinct` | chesslib/chess_board.py:24-51 | no piece of the starting position occupies two slots |
| `BoardModel.DefaultPieceCount` | chesslib/chess_board.py:24-51 | the starting position holds 32 pieces, 16 white and 16 black |
| `BoardModel.DecodeStartSlotOrder` | chesslib/chess_board.py:54-95 | decoding the starting text given in slot order (rank 1 first) builds exactly the starting position |
| `BoardModel.EncodeStartFromWhite` | chesslib/chess_board.py:155-178 | the starting position written from white's side is `rnbqkbnr pppppppp`, four empty ranks, `PPPPPPPP RNBQKBNR` (without spaces) |
| `BoardModel.DecodeStartWhiteViewFlips` | chesslib/chess_board.py:54-95 | decoding that white-side text puts the black King on e1 and the white King on e8 |
| `BoardModel.Occupants` | chesslib/chess_board.py:111-114 | the list is no longer than the board and every listed piece has the requested colour when one is given |
| `BoardModel.OccupantsMembers` | chesslib/chess_board.py:111-114 | the listed pieces are exactly the occupants of the slots, restricted to the given colour when there is one |
| `BoardModel.OccupantsAppend` | chesslib/chess_board.py:111-114 | the list follows slot order: the occupants of two consecutive runs of slots are listed run after run |
| `BoardModel.KingIndex` | chesslib/chess_board.py:139-142 | the lowest slot holding a King of the colour, or none exactly when no slot does |
| `BoardModel.FirstKingOfOccupants` | chesslib/chess_board.py:139-142 | the first King in the colour-filtered piece list is the occupant of the lowest King slot of that colour |
| `BoardModel.Moved` | chesslib/chess_board.py:145-147 | after a move the source slot is empty. A different target holds the old source occupant, and every other slot is unchanged, so a move onto the same square empties that square |
| `BoardModel.MoveBack` | chesslib/chess_board.py:145-147 | moving to an empty square and back restores the board |
| `BoardModel.MoveOntoItself` | chesslib/chess_board.py:145-147 | moving a square onto itself just clears it |
| `BoardModel.DefaultMoveA2A4` | chesslib/chess_board.py:145-147 | on the starting position, a2 to a4 empties a2 and puts the same a2 pawn on a4 |
| `BoardModel.Swapped` | chesslib/chess_board.py:150-153 | the two slots exchange occupants and every other slot is unchanged |
| `BoardModel.SwapTwice` | chesslib/chess_board.py:150-153 | swapping the same pair twice restores the board |
| `BoardModel.SwapSelf` | chesslib/chess_board.py:150-153 | swapping a square with itself changes nothing |
| `BoardModel.SwapSymmetric` | chesslib/chess_board.py:150-153 | the order of the two squares does not matter |
| `BoardModel.SwapPermutes` | chesslib/chess_board.py:150-153 | a swap keeps the multiset of slot contents |
| `ChessBoards.CreateDefaultBoard` | chesslib/chess_board.py:24-51 | the pawn loops followed by the back-rank placements build exactly the starting position |
| `ChessBoards.CreateBoardFromStr` | chesslib/chess_board.py:54-95 | the decoding loop, with its early error return, returns exactly what `DecodeBoard` defines |
| `ChessBoards.EmptyLayout` | chesslib/chess_board.py:100-101 | the empty board has 64 slots, all empty |
| `ChessBoards.ChessBoard.GetPiece` | chesslib/chess_board.py:107-108 | the occupant of a square is the slot at the square's index |
| `ChessBoards.ChessBoard.IsEmptySquare` | chesslib/chess_board.py:125-126 | a square is empty iff its occupant is nothing, iff it is written as `.` |
| `ChessBoards.ChessBoard.GetPieces` | chesslib/chess_board.py:111-114 | the board's pieces in ascending slot order, exactly those of the given colour when one is given |
| `ChessBoards.ChessBoard.GetSquare` | chesslib/chess_board.py:117-120 | the search loop returns a square holding exactly the argument with no earlier slot holding it; it returns nothing exactly when no slot holds it |
| `ChessBoards.ChessBoard.GetKingSquare` | chesslib/chess_board.py:139-142 | the square of the lowest-slot King of the colour, or nothing exactly when there is no such King |
| `ChessBoards.ChessBoard.SetSquare` | chesslib/chess_board.py:122-123 | afterwards the square holds the given piece or nothing, and every other square is unchanged |
| `ChessBoards.ChessBoard.Move` | chesslib/chess_board.py:145-147 | the slots become `Moved` of the old slots: the source ends empty, even when it is also the target |
| `ChessBoards.ChessBoard.SwapPieces` | chesslib/chess_board.py:150-153 | the slots become `Swapped` of the old slots |
| `ChessBoards.ChessBoard.ToString` | chesslib/chess_board.py:155-178 | the nested row and column loops produce exactly `EncodeBoard` of the slots for the given perspective |
| `ChessBoards.NewChessBoard` | chesslib/chess_board.py:99-105 | `empty` gives the empty board even when a text is supplied. Otherwise a supplied text is decoded, and the board is made exactly when decoding succeeds, else the decoder's error is returned. With neither, the result is the starting position |

## Left out

- `ChessBoard.get_moves` and every piece's `legal_moves`: the movement rules are in the piece
  subclass files (king.py, pawn.py and the others), which are not part of this model. Any model
  of them would be invented.
- Square labels: `square_to_index` and `index_to_square` parse and print labels such as "e4".
  They live in chess_board_utils.py, which is not part of this model. Squares are modelled by
  their coordinates, so a malformed label and its error have no counterpart.
- Pieces.KindValue: the weights are set by the piece subclasses, which are not part of this
  model. The table (pawn 1, knight 3, bishop 3, rook 5, queen 9, king 0) is a placeholder, and
  nothing in this core reads the weights.
- The texts of the error messages and the payload of the decode error. A failed decode is a
  `BoardError` value that carries the length, or the position and the character.
- `get_king_square(None)`, where Python lists pieces of every colour: the model's colour
  argument is always a string.
- The default argument of `to_string`: `to_string()` is modelled as `ToString(White)`, since
  the method takes the perspective as an explicit argument.
- The abstract-base-class machinery of `Piece` and its `NotImplementedError` stubs: kinds form
  a closed datatype.
- Python object identity beyond the builders: a caller of `SetSquare` can put the same `Piece`
  value on two squares. That matches putting one Python object on two squares. A separately
  constructed piece with the same id, kind, colour and weight would count as the same piece.
